/** Resolving labels to relative skips preserves the program's meaning. */
module BpfMeaning {
  import opened BpfMachine
  import opened BpfAssembler

  lemma {:induction false} PosOfPrefix(items: seq<Item>, n: nat, p: nat)
    requires p <= n <= |items|
    ensures Pos(items[..n], p) == Pos(items, p)
  {
    if p > 0 {
      PosOfPrefix(items, n, p - 1);
    }
  }

  lemma {:induction false} PosMonotone(items: seq<Item>, p: nat, q: nat)
    requires p <= q <= |items|
    ensures Pos(items, p) <= Pos(items, q)
    ensures p < q && !items[p].Label? ==> Pos(items, p) < Pos(items, q)
  {
    if p < q {
      PosMonotone(items, p, q - 1);
      if q - 1 == p { assert Pos(items, q) == Pos(items, p) + (if items[p].Label? then 0 else 1); }
    }
  }

  lemma {:induction false} CodeLength(items: seq<Item>)
    ensures |CodeOf(items)| == Pos(items, |items|)
  {
    if items != [] {
      var n := |items| - 1;
      CodeLength(items[..n]);
      PosOfPrefix(items, n, n);
    }
  }

  /** The labels map sends a name to the code position of its last definition. */
  lemma {:induction false} LabelPosition(items: seq<Item>, name: string)
    ensures name in LabelsOf(items) <==> LastLabel(items, name).Some?
    ensures name in LabelsOf(items) ==> LabelsOf(items)[name] == Pos(items, LastLabel(items, name).value)
  {
    if items != [] {
      var n := |items| - 1;
      LabelPosition(items[..n], name);
      CodeLength(items[..n]);
      PosOfPrefix(items, n, n);
      var last := LastLabel(items[..n], name);
      if last.Some? {
        PosOfPrefix(items, n, last.value);
      }
    }
  }

  /** One more item only appends to the code and to the recorded jumps. */
  lemma CodeExtends(items: seq<Item>)
    requires items != []
    ensures var init, last := items[..|items| - 1], items[|items| - 1];
            && (last.Label? ==> CodeOf(items) == CodeOf(init) && JumpsOf(items) == JumpsOf(init))
            && (last.Op? ==> CodeOf(items) == CodeOf(init) + [last.ins] && JumpsOf(items) == JumpsOf(init))
            && (last.Jump? ==> CodeOf(items) == CodeOf(init) + [JumpIf(last.cond, last.val, 0, 0)]
                               && JumpsOf(items) ==
                               JumpsOf(init) + [JumpRec(|CodeOf(init)|, last.onTrue, last.onFalse)])
  {
  }

  ghost predicate Unrecorded(items: seq<Item>, idx: nat) {
    forall j :: 0 <= j < |JumpsOf(items)| ==> JumpsOf(items)[j].idx != idx
  }

  lemma UnrecordedPast(items: seq<Item>, idx: nat)
    requires idx >= |CodeOf(items)|
    ensures Unrecorded(items, idx)
  {
    JumpsWellFormed(items);
    hide CodeOf, JumpsOf;
  }

  /** Where item p lands in the flattened code, and that exactly the jumps are recorded. */
  lemma {:induction false} ItemInCode(items: seq<Item>, p: nat)
    requires p < |items| && !items[p].Label?
    ensures Pos(items, p) < |CodeOf(items)|
    ensures items[p].Op? ==> CodeOf(items)[Pos(items, p)] == items[p].ins && Unrecorded(items, Pos(items, p))
    ensures items[p].Jump? ==>
              && CodeOf(items)[Pos(items, p)] == JumpIf(items[p].cond, items[p].val, 0, 0)
              && JumpRec(Pos(items, p), items[p].onTrue, items[p].onFalse) in JumpsOf(items)
  {
    hide CodeOf, JumpsOf, Pos;
    var n := |items| - 1;
    var init := items[..n];
    CodeLength(init);
    PosOfPrefix(items, n, n);
    PosOfPrefix(items, n, p);
    CodeExtends(items);
    UnrecordedPast(init, |CodeOf(init)|);
    if p < n {
      ItemInCode(init, p);
    }
  }

  lemma EndOfCode(items: seq<Item>, code: seq<Instr>)
    requires Resolves(items, code)
    ensures Pos(items, |items|) == |code|
  {
    CodeLength(items);
  }

  lemma NextPos(items: seq<Item>, p: nat)
    requires p < |items|
    ensures Pos(items, p + 1) == Pos(items, p) + (if items[p].Label? then 0 else 1)
  {
  }

  lemma OpInCode(items: seq<Item>, code: seq<Instr>, p: nat)
    requires Resolves(items, code) && NoRawJumps(items) && p < |items| && items[p].Op?
    ensures Pos(items, p) < |code| && code[Pos(items, p)] == items[p].ins && !items[p].ins.JumpIf?
  {
    ItemInCode(items, p);
  }

  /** For any labelled program that resolve does not reject, running the resolved
      code from an item's code position gives the item's labelled verdict. */
  lemma {:induction false} ResolvePreservesMeaning(items: seq<Item>, code: seq<Instr>, p: nat, r: Regs, frame: Bytes)
    requires Resolves(items, code) && p <= |items|
    requires NoRawJumps(items)
    ensures RunLabelled(items, p, r, frame) == Ret(Run(code, Pos(items, p), r, frame))
    decreases |items| - p
  {
    hide Resolves, Pos, Target, NoRawJumps, Holds, Exec;
    if p == |items| {
      EndOfCode(items, code);
    } else if items[p].Jump? {
      var name := if Holds(items[p].cond, r.a, items[p].val) then items[p].onTrue else items[p].onFalse;
      ResolvedJump(items, code, p);
      ResolvePreservesMeaning(items, code, Target(items, p, name).value, r, frame);
    } else if items[p].Label? {
      NextPos(items, p);
      ResolvePreservesMeaning(items, code, p + 1, r, frame);
    } else {
      OpInCode(items, code, p);
      NextPos(items, p);
      var ins := items[p].ins;
      if !ins.RetConstant? && Exec(ins, r, frame).Some? {
        ResolvePreservesMeaning(items, code, p + 1, Exec(ins, r, frame).value, frame);
      }
    }
  }

  predicate NoRawJumps(items: seq<Item>) {
    forall i :: 0 <= i < |items| && items[i].Op? ==> !items[i].ins.JumpIf?
  }

  /** A resolved jump tests what it tested before, and continues where its labels are. */
  lemma ResolvedJump(items: seq<Item>, code: seq<Instr>, p: nat)
    requires Resolves(items, code) && p < |items| && items[p].Jump?
    ensures Pos(items, p) < |code| && code[Pos(items, p)].JumpIf?
    ensures var ins := code[Pos(items, p)];
            && ins.cond == items[p].cond && ins.val == items[p].val
            && var t := Target(items, p, items[p].onTrue);
            && var f := Target(items, p, items[p].onFalse);
            && t.Some? && t.value <= |items| && Pos(items, t.value) == Pos(items, p) + 1 + ins.skipTrue
            && f.Some? && f.value <= |items| && Pos(items, f.value) == Pos(items, p) + 1 + ins.skipFalse
  {
    ItemInCode(items, p);
    JumpLandsOnLabel(items, code, p, items[p].onTrue);
    JumpLandsOnLabel(items, code, p, items[p].onFalse);
  }

  /** A resolved jump's skip reaches exactly the code position of its label. */
  lemma JumpLandsOnLabel(items: seq<Item>, code: seq<Instr>, p: nat, name: string)
    requires Resolves(items, code) && p < |items| && items[p].Jump?
    requires name == items[p].onTrue || name == items[p].onFalse
    ensures Target(items, p, name).Some? && Target(items, p, name).value <= |items|
    ensures Skip(LabelsOf(items), Pos(items, p), name).Some?
    ensures Pos(items, Target(items, p, name).value) ==
            Pos(items, p) + 1 + Skip(LabelsOf(items), Pos(items, p), name).value
  {
    RecordedSkips(items, code, p);
    hide CodeOf, JumpsOf, LabelsOf, Resolves, Pos, LastLabel;
    LabelPosition(items, name);
    NextPos(items, p);
    if name != "" {
      var k := LastLabel(items, name).value;
      if k <= p {
        PosMonotone(items, k, p);
      }
    }
  }

  lemma RecordedSkips(items: seq<Item>, code: seq<Instr>, p: nat)
    requires Resolves(items, code) && p < |items| && items[p].Jump?
    ensures Skip(LabelsOf(items), Pos(items, p), items[p].onTrue).Some?
    ensures Skip(LabelsOf(items), Pos(items, p), items[p].onFalse).Some?
  {
    ItemInCode(items, p);
    hide CodeOf, JumpsOf, LabelsOf, Pos, Skip;
    var r := JumpRec(Pos(items, p), items[p].onTrue, items[p].onFalse);
    var j :| 0 <= j < |JumpsOf(items)| && JumpsOf(items)[j] == r;
  }

  /** Resolve rejects a program exactly when some jump names an undefined label,
      a label behind it, or one more than 255 instructions ahead. */
  lemma ResolvableIff(items: seq<Item>)
    ensures Resolvable(items) <==>
            forall p :: 0 <= p < |items| && items[p].Jump? ==>
              NearAhead(items, p, items[p].onTrue) && NearAhead(items, p, items[p].onFalse)
  {
    if Resolvable(items) {
      forall p | 0 <= p < |items| && items[p].Jump?
        ensures NearAhead(items, p, items[p].onTrue) && NearAhead(items, p, items[p].onFalse)
      {
        ItemInCode(items, p);
        NearAheadIsSkip(items, p, items[p].onTrue);
        NearAheadIsSkip(items, p, items[p].onFalse);
      }
    } else {
      var j :| 0 <= j < |JumpsOf(items)| &&
               var r := JumpsOf(items)[j];
               !(Skip(LabelsOf(items), r.idx, r.onTrue).Some? && Skip(LabelsOf(items), r.idx, r.onFalse).Some?);
      var p := JumpSource(items, j);
      NearAheadIsSkip(items, p, items[p].onTrue);
      NearAheadIsSkip(items, p, items[p].onFalse);
    }
  }

  ghost predicate NearAhead(items: seq<Item>, p: nat, name: string)
    requires p < |items|
  {
    name == "" ||
    (Target(items, p, name).Some? && Target(items, p, name).value < |items| &&
     Pos(items, Target(items, p, name).value) - Pos(items, p) - 1 <= 255)
  }

  lemma NearAheadIsSkip(items: seq<Item>, p: nat, name: string)
    requires p < |items| && items[p].Jump?
    ensures NearAhead(items, p, name) <==> Skip(LabelsOf(items), Pos(items, p), name).Some?
  {
    LabelPosition(items, name);
    if LastLabel(items, name).Some? {
      var k := LastLabel(items, name).value;
      if k <= p { PosMonotone(items, k, p); } else { PosMonotone(items, p, k); }
    }
  }

  /** The item a recorded jump came from. */
  lemma {:induction false} JumpSource(items: seq<Item>, j: nat) returns (p: nat)
    requires j < |JumpsOf(items)|
    ensures p < |items| && items[p].Jump?
    ensures JumpsOf(items)[j] == JumpRec(Pos(items, p), items[p].onTrue, items[p].onFalse)
  {
    var n := |items| - 1;
    if j < |JumpsOf(items[..n])| {
      p := JumpSource(items[..n], j);
      PosOfPrefix(items, n, p);
    } else {
      p := n;
      CodeLength(items[..n]);
      PosOfPrefix(items, n, n);
    }
  }
}
