/** The filters as attached to a socket, and what they mean for the detectors. */
module FilterResults {
  import opened BpfMachine
  import opened BpfAssembler
  import opened BpfMeaning
  import opened Filters
  import opened FilterMeaning

  // ---- Neither program is rejected by resolve ----

  ghost predicate JumpFits(it: seq<Item>, p: nat)
    requires p < |it|
  {
    && (it[p].Jump? ==> Reaches(it, p, it[p].onTrue) && Reaches(it, p, it[p].onFalse))
    && (it[p].Op? ==> !it[p].ins.JumpIf?)
  }

  ghost predicate Reaches(it: seq<Item>, p: nat, name: string) {
    name == "" || (Target(it, p, name).Some? && Target(it, p, name).value < |it|)
  }

  /** A short program whose jumps all name labels ahead resolves. */
  lemma ShortProgramResolves(it: seq<Item>)
    requires |it| <= 255
    requires forall p :: 0 <= p < |it| ==> JumpFits(it, p)
    ensures Resolvable(it) && NoRawJumps(it)
  {
    hide Resolvable, Target;
    forall p | 0 <= p < |it| && it[p].Op? ensures !it[p].ins.JumpIf? {
      assert JumpFits(it, p);
    }
    forall p | 0 <= p < |it| && it[p].Jump?
      ensures NearAhead(it, p, it[p].onTrue) && NearAhead(it, p, it[p].onFalse)
    {
      assert JumpFits(it, p);
    }
    assert forall p :: 0 <= p < |it| ==> JumpFits(it, p);
    ResolvableIff(it);
  }

  lemma SteadyJumpsEther(greengo: bool, p: nat)
    requires p < 5 && p < |SteadyItems(greengo)|
    ensures JumpFits(SteadyItems(greengo), p)
  {
    hide SteadyItems, LastLabel;
    EtherTypeCode(greengo);
  }

  lemma SteadyJumpsGroupMac(greengo: bool, p: nat)
    requires 5 <= p < 15 && p < |SteadyItems(greengo)|
    ensures JumpFits(SteadyItems(greengo), p)
  {
    hide SteadyItems, LastLabel;
    var it := SteadyItems(greengo);
    GroupMacCode(greengo);
    if p < 10 { assert it[p] == it[5..10][p - 5]; } else { assert it[p] == it[10..15][p - 10]; }
  }

  lemma SteadyJumpsIpv4(greengo: bool, p: nat)
    requires 15 <= p < 21 && p < |SteadyItems(greengo)|
    ensures JumpFits(SteadyItems(greengo), p)
  {
    hide SteadyItems, LastLabel;
    Ipv4Code(greengo);
  }

  lemma SteadyJumpsPorts(greengo: bool, p: nat)
    requires 21 <= p < RejectPos(greengo) && p < |SteadyItems(greengo)|
    ensures JumpFits(SteadyItems(greengo), p)
  {
    hide SteadyItems, LastLabel;
    if p < 29 || (greengo && p == 29) {
      DestCode(greengo);
    } else if p <= SportPos(greengo) + 1 || p == 32 {
      SportCode(greengo);
    } else {
      AnnounceCode();
    }
  }

  lemma SteadyResolvable(greengo: bool)
    ensures Resolvable(SteadyItems(greengo)) && NoRawJumps(SteadyItems(greengo))
  {
    var it := SteadyItems(greengo);
    SteadyLayout(greengo);
    hide SteadyItems, Resolvable, JumpFits;
    forall p | 0 <= p < |it| ensures JumpFits(it, p) {
      if p < 5 { SteadyJumpsEther(greengo, p); }
      else if p < 15 { SteadyJumpsGroupMac(greengo, p); }
      else if p < 21 { SteadyJumpsIpv4(greengo, p); }
      else if p < RejectPos(greengo) { SteadyJumpsPorts(greengo, p); }
      else { VerdictsHaveNoJumps(it, RejectPos(greengo), p); }
    }
    ShortProgramResolves(it);
  }

  lemma VerdictsHaveNoJumps(it: seq<Item>, rej: nat, p: nat)
    requires rej <= p < |it| && it[rej..] == VerdictItems()
    ensures JumpFits(it, p)
  {
    assert it[p] == it[rej..][p - rej];
  }

  lemma ProbeResolvable()
    ensures Resolvable(ProbeItems()) && NoRawJumps(ProbeItems())
  {
    var it := ProbeItems();
    ProbeLayout();
    hide ProbeItems, Resolvable, JumpFits;
    forall p | 0 <= p < |it| ensures JumpFits(it, p) {
      ProbeJumps(p);
    }
    ShortProgramResolves(it);
  }

  lemma ProbeJumps(p: nat)
    requires p < |ProbeItems()|
    ensures JumpFits(ProbeItems(), p)
  {
    var it := ProbeItems();
    ProbeLayout();
    ProbeLabels();
    hide ProbeItems, LastLabel;
    if 3 <= p < 10 {
      ProbeClauseCode(3, 0);
      assert it[p] == it[3..10][p - 3];
    } else if 13 <= p < 20 {
      ProbeClauseCode(13, 4);
      assert it[p] == it[13..20][p - 13];
    } else if p >= 20 {
      VerdictsHaveNoJumps(it, 20, p);
    }
  }

  // ---- The attached programs ----

  ghost predicate Decides(code: seq<Instr>, accepts: Bytes -> bool) {
    forall b: Bytes :: Run(code, 0, Regs(0, 0), b) == if accepts(b) then 0x40000 else 0
  }

  /** buildBPFInstructions: never panics, and accepts exactly the documented frames. */
  method BuildBpfInstructions(greengo: bool) returns (code: seq<Instr>)
    ensures Decides(code, b => Wanted(greengo, b))
  {
    var a := BuildAsm(greengo);
    SteadyResolvable(greengo);
    var ok := a.Resolve();
    assert ok;
    code := a.ins;
    SteadyDecides(greengo, code);
  }

  lemma SteadyDecides(greengo: bool, code: seq<Instr>)
    requires Resolves(SteadyItems(greengo), code)
    ensures Decides(code, b => Wanted(greengo, b))
  {
    hide Resolves, SteadyItems, Wanted;
    SteadyResolvable(greengo);
    forall b: Bytes ensures Run(code, 0, Regs(0, 0), b) == if Wanted(greengo, b) then ACCEPT else REJECT {
      SteadyVerdict(greengo, Regs(0, 0), b);
      ResolvePreservesMeaning(SteadyItems(greengo), code, 0, Regs(0, 0), b);
    }
  }

  /** rogueOfferInstructions: never panics, and accepts exactly the server-side DHCP frames. */
  method RogueOfferInstructions() returns (code: seq<Instr>)
    ensures Decides(code, b => ProbeWanted(b))
  {
    var a := BuildProbeAsm();
    ProbeResolvable();
    var ok := a.Resolve();
    assert ok;
    code := a.ins;
    ProbeDecides(code);
  }

  lemma ProbeDecides(code: seq<Instr>)
    requires Resolves(ProbeItems(), code)
    ensures Decides(code, b => ProbeWanted(b))
  {
    hide Resolves, ProbeItems, ProbeWanted;
    ProbeResolvable();
    forall b: Bytes ensures Run(code, 0, Regs(0, 0), b) == if ProbeWanted(b) then ACCEPT else REJECT {
      ProbeVerdict(Regs(0, 0), b);
      ResolvePreservesMeaning(ProbeItems(), code, 0, Regs(0, 0), b);
    }
  }
}
