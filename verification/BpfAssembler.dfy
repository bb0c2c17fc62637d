/** The label-resolving assembler (`bpfAsm`). A labelled program is a list of
    items; the assembler flattens it to instructions with relative skips. */
module BpfAssembler {
  import opened Common
  import opened BpfMachine

  datatype Item =
    | Op(ins: Instr)
    | Label(name: string)
    | Jump(cond: JumpTest, val: bv32, onTrue: string, onFalse: string)

  datatype JumpRec = JumpRec(idx: nat, onTrue: string, onFalse: string)

  const MAX_SKIP := 255

  // ---- What a labelled program means, without any skip arithmetic ----

  datatype Verdict = Stuck | Ret(val: bv32)

  /** The position of the last definition of `name`, as the labels map keeps it. */
  function LastLabel(items: seq<Item>, name: string): Option<nat>
    ensures LastLabel(items, name).Some? ==>
              var k := LastLabel(items, name).value;
              && k < |items| && items[k] == Label(name)
              && forall j :: k < j < |items| ==> items[j] != Label(name)
    ensures LastLabel(items, name).None? ==> Label(name) !in items
  {
    if items == [] then None
    else if items[|items| - 1] == Label(name) then Some(|items| - 1)
    else LastLabel(items[..|items| - 1], name)
  }

  /** Where a jump at position p continues: the next item for the empty label,
      otherwise the label's position, provided it lies ahead. */
  function Target(items: seq<Item>, p: nat, name: string): Option<nat>
    ensures Target(items, p, name).Some? ==> Target(items, p, name).value > p
  {
    if name == "" then Some(p + 1) else
      match LastLabel(items, name)
      case None => None
      case Some(k) => if k > p then Some(k) else None
  }

  /** Runs a labelled program: a jump simply continues at its label. */
  function RunLabelled(items: seq<Item>, p: nat, r: Regs, frame: Bytes): Verdict
    decreases |items| - p
  {
    if p >= |items| then Ret(REJECT) else
      match items[p]
      case Label(_) => RunLabelled(items, p + 1, r, frame)
      case Jump(cond, val, onTrue, onFalse) =>
        (match Target(items, p, if Holds(cond, r.a, val) then onTrue else onFalse)
         case None => Stuck
         case Some(q) => RunLabelled(items, q, r, frame))
      case Op(ins) =>
        if ins.RetConstant? then Ret(ins.val)
        else if ins.JumpIf? then Stuck
        else
          match Exec(ins, r, frame)
          case None => Ret(REJECT)
          case Some(r') => RunLabelled(items, p + 1, r', frame)
  }

  // ---- What the assembler's three fields hold while a program is emitted ----

  /** The number of instructions the first p items emit. */
  function Pos(items: seq<Item>, p: nat): nat
    requires p <= |items|
    ensures Pos(items, p) <= p
  {
    if p == 0 then 0 else Pos(items, p - 1) + (if items[p - 1].Label? then 0 else 1)
  }

  function CodeOf(items: seq<Item>): seq<Instr>
    ensures |CodeOf(items)| <= |items|
  {
    if items == [] then [] else
      var init := CodeOf(items[..|items| - 1]);
      match items[|items| - 1]
      case Op(ins) => init + [ins]
      case Jump(cond, val, _, _) => init + [JumpIf(cond, val, 0, 0)]
      case Label(_) => init
  }

  function LabelsOf(items: seq<Item>): map<string, nat> {
    if items == [] then map[] else
      var init := items[..|items| - 1];
      match items[|items| - 1]
      case Label(name) => LabelsOf(init)[name := |CodeOf(init)|]
      case _ => LabelsOf(init)
  }

  function JumpsOf(items: seq<Item>): seq<JumpRec> {
    if items == [] then [] else
      var init := items[..|items| - 1];
      match items[|items| - 1]
      case Jump(_, _, onTrue, onFalse) => JumpsOf(init) + [JumpRec(|CodeOf(init)|, onTrue, onFalse)]
      case _ => JumpsOf(init)
  }

  /** The skip from the jump at idx to a label, None where `resolve` panics. */
  function Skip(labels: map<string, nat>, idx: nat, name: string): Option<nat> {
    if name == "" then Some(0)
    else if name !in labels then None
    else if 0 <= labels[name] - idx - 1 <= MAX_SKIP then Some(labels[name] - idx - 1)
    else None
  }

  predicate Resolvable(items: seq<Item>) {
    forall j :: 0 <= j < |JumpsOf(items)| ==>
      var r := JumpsOf(items)[j];
      Skip(LabelsOf(items), r.idx, r.onTrue).Some? && Skip(LabelsOf(items), r.idx, r.onFalse).Some?
  }

  /** `code` is the flattened program with every recorded jump patched. */
  ghost predicate Resolves(items: seq<Item>, code: seq<Instr>) {
    && |code| == |CodeOf(items)|
    && (forall i :: 0 <= i < |code| && (forall j :: 0 <= j < |JumpsOf(items)| ==> JumpsOf(items)[j].idx != i) ==>
         code[i] == CodeOf(items)[i])
    && forall j :: 0 <= j < |JumpsOf(items)| ==>
         var r := JumpsOf(items)[j];
         && r.idx < |code| && CodeOf(items)[r.idx].JumpIf?
         && Skip(LabelsOf(items), r.idx, r.onTrue).Some? && Skip(LabelsOf(items), r.idx, r.onFalse).Some?
         && code[r.idx] == CodeOf(items)[r.idx].(skipTrue := Skip(LabelsOf(items), r.idx, r.onTrue).value,
                                                 skipFalse := Skip(LabelsOf(items), r.idx, r.onFalse).value)
  }

  /** The recorded jumps point, in order, at distinct unpatched conditional jumps. */
  lemma JumpsWellFormed(items: seq<Item>)
    ensures forall j :: 0 <= j < |JumpsOf(items)| ==>
              var i := JumpsOf(items)[j].idx;
              i < |CodeOf(items)| && CodeOf(items)[i].JumpIf? &&
              CodeOf(items)[i].skipTrue == 0 && CodeOf(items)[i].skipFalse == 0
    ensures forall j, k :: 0 <= j < k < |JumpsOf(items)| ==> JumpsOf(items)[j].idx < JumpsOf(items)[k].idx
  {
    if items != [] {
      JumpsWellFormed(items[..|items| - 1]);
    }
  }

  class BpfAsm {
    var ins: seq<Instr>
    var labels: map<string, nat>
    var jumps: seq<JumpRec>
    ghost var items: seq<Item>  // the labelled program emitted so far

    ghost predicate Emitting()
      reads this
    {
      ins == CodeOf(items) && labels == LabelsOf(items) && jumps == JumpsOf(items)
    }

    constructor ()
      ensures Emitting() && items == []
    {
      ins, labels, jumps, items := [], map[], [], [];
    }

    method Emit(i: Instr)
      requires Emitting() && !i.JumpIf?
      modifies this
      ensures Emitting() && items == old(items) + [Op(i)]
    {
      ins := ins + [i];
      items := items + [Op(i)];
      assert items[..|items| - 1] == old(items);
    }

    method SetLabel(name: string)
      requires Emitting()
      modifies this
      ensures Emitting() && items == old(items) + [Label(name)]
    {
      labels := labels[name := |ins|];
      items := items + [Label(name)];
      assert items[..|items| - 1] == old(items);
    }

    method EmitJump(cond: JumpTest, val: bv32, onTrue: string, onFalse: string)
      requires Emitting()
      modifies this
      ensures Emitting() && items == old(items) + [Jump(cond, val, onTrue, onFalse)]
    {
      jumps := jumps + [JumpRec(|ins|, onTrue, onFalse)];
      ins := ins + [JumpIf(cond, val, 0, 0)];
      items := items + [Jump(cond, val, onTrue, onFalse)];
      assert items[..|items| - 1] == old(items);
    }

    /** Patches every recorded jump in place; `ok` is false where the Go code panics. */
    method Resolve() returns (ok: bool)
      requires Emitting()
      modifies this`ins
      ensures ok == Resolvable(items)
      ensures ok ==> Resolves(items, ins)
    {
      JumpsWellFormed(items);
      hide CodeOf, JumpsOf, LabelsOf;
      var n := 0;
      while n < |jumps|
        invariant 0 <= n <= |jumps|
        invariant |ins| == |CodeOf(items)|
        invariant forall i :: 0 <= i < |ins| && (forall j :: 0 <= j < n ==> jumps[j].idx != i) ==>
                  ins[i] == CodeOf(items)[i]
        invariant forall j :: 0 <= j < n ==>
                    var r := jumps[j];
                    && Skip(labels, r.idx, r.onTrue).Some? && Skip(labels, r.idx, r.onFalse).Some?
                    && ins[r.idx] == CodeOf(items)[r.idx].(skipTrue := Skip(labels, r.idx, r.onTrue).value,
                                                           skipFalse := Skip(labels, r.idx, r.onFalse).value)
      {
        var j := jumps[n];
        var ji := ins[j.idx];
        var t, f := Skip(labels, j.idx, j.onTrue), Skip(labels, j.idx, j.onFalse);
        if t.None? || f.None? {
          return false;
        }
        if j.onTrue != "" {
          ji := ji.(skipTrue := t.value);
        }
        if j.onFalse != "" {
          ji := ji.(skipFalse := f.value);
        }
        ins := ins[j.idx := ji];
        n := n + 1;
      }
      ok := true;
    }
  }
}
