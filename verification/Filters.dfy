/** The two kernel filters, emitted through the assembler (bpf.go, rogueprobe.go). */
module Filters {
  import opened BpfMachine
  import opened BpfAssembler
  import opened Frames

  // ---- The steady-state filter, block by block ----

  function EtherTypeItems(): seq<Item> {
    [ Op(LoadAbsolute(12, 2)),
      Jump(JumpEqual, ETHERTYPE_VLAN as bv32, "accept", ""),
      Jump(JumpEqual, ETHERTYPE_LLDP as bv32, "accept", ""),
      Jump(JumpEqual, ETHERTYPE_PTP as bv32, "accept", ""),
      Jump(JumpEqual, ETHERTYPE_ARP as bv32, "accept", "") ]
  }

  function GroupMacItems(hi: bv32, lo: bv32, after: string): seq<Item> {
    [ Op(LoadAbsolute(0, 4)),
      Jump(JumpEqual, hi, "", after),
      Op(LoadAbsolute(4, 2)),
      Jump(JumpEqual, lo, "accept", ""),
      Label(after) ]
  }

  function Ipv4Items(): seq<Item> {
    [ Op(LoadAbsolute(12, 2)),
      Jump(JumpEqual, ETHERTYPE_IPV4 as bv32, "ipv4", "reject"),
      Label("ipv4"),
      Op(LoadAbsolute(23, 1)),
      Jump(JumpEqual, PROTO_IGMP as bv32, "accept", ""),
      Jump(JumpEqual, PROTO_UDP as bv32, "udp", "reject") ]
  }

  function DestPortItems(): seq<Item> {
    [ Label("udp"),
      Op(LoadAbsolute(20, 2)),
      Jump(JumpBitsSet, 0x1fff, "reject", ""),
      Op(LoadMemShift(14)),
      Op(LoadIndirect(16, 2)),
      Jump(JumpEqual, 67, "accept", ""),
      Jump(JumpEqual, 320, "accept", ""),
      Jump(JumpEqual, 319, "accept", "") ]
  }

  function SourcePortItems(): seq<Item> {
    [ Op(LoadIndirect(14, 2)),
      Jump(JumpEqual, 67, "accept", "") ]
  }

  function AnnounceItems(): seq<Item> {
    [ Jump(JumpEqual, GGO_BUS_PORT as bv32, "g5h", "reject"),
      Label("g5h"),
      Op(LoadIndirect(22, 2)),
      Jump(JumpEqual, 0x4735, "", "reject"),
      Op(LoadIndirect(24, 1)),
      Jump(JumpEqual, 0x68, "accept", "reject") ]
  }

  function VerdictItems(): seq<Item> {
    [ Label("reject"),
      Op(RetConstant(REJECT)),
      Label("accept"),
      Op(RetConstant(ACCEPT)) ]
  }

  function SteadyItems(greengo: bool): seq<Item> {
    EtherTypeItems()
    + GroupMacItems(0x01000ccc, 0xcccc, "after_cdp")
    + GroupMacItems(0x0180c200, 0x0000, "after_bpdu")
    + Ipv4Items()
    + DestPortItems()
    + (if greengo then [Jump(JumpEqual, GGO_BUS_PORT as bv32, "g5h", "")] else [])
    + SourcePortItems()
    + (if greengo then AnnounceItems() else [])
    + VerdictItems()
  }

  method EmitEtherTypes(asm: BpfAsm)
    requires asm.Emitting()
    modifies asm
    ensures asm.Emitting() && asm.items == old(asm.items) + EtherTypeItems()
  {
    asm.Emit(LoadAbsolute(12, 2));
    asm.EmitJump(JumpEqual, ETHERTYPE_VLAN as bv32, "accept", "");
    asm.EmitJump(JumpEqual, ETHERTYPE_LLDP as bv32, "accept", "");
    asm.EmitJump(JumpEqual, ETHERTYPE_PTP as bv32, "accept", "");
    asm.EmitJump(JumpEqual, ETHERTYPE_ARP as bv32, "accept", "");
  }

  method EmitGroupMac(asm: BpfAsm, hi: bv32, lo: bv32, after: string)
    requires asm.Emitting()
    modifies asm
    ensures asm.Emitting() && asm.items == old(asm.items) + GroupMacItems(hi, lo, after)
  {
    asm.Emit(LoadAbsolute(0, 4));
    asm.EmitJump(JumpEqual, hi, "", after);
    asm.Emit(LoadAbsolute(4, 2));
    asm.EmitJump(JumpEqual, lo, "accept", "");
    asm.SetLabel(after);
  }

  method EmitIpv4(asm: BpfAsm)
    requires asm.Emitting()
    modifies asm
    ensures asm.Emitting() && asm.items == old(asm.items) + Ipv4Items()
  {
    asm.Emit(LoadAbsolute(12, 2));
    asm.EmitJump(JumpEqual, ETHERTYPE_IPV4 as bv32, "ipv4", "reject");
    asm.SetLabel("ipv4");
    asm.Emit(LoadAbsolute(23, 1)); // IP protocol
    asm.EmitJump(JumpEqual, PROTO_IGMP as bv32, "accept", "");
    asm.EmitJump(JumpEqual, PROTO_UDP as bv32, "udp", "reject");
  }

  method EmitDestPort(asm: BpfAsm)
    requires asm.Emitting()
    modifies asm
    ensures asm.Emitting() && asm.items == old(asm.items) + DestPortItems()
  {
    hide CodeOf, LabelsOf, JumpsOf;
    asm.SetLabel("udp");
    asm.Emit(LoadAbsolute(20, 2)); // flags and fragment offset
    asm.EmitJump(JumpBitsSet, 0x1fff, "reject", "");
    asm.Emit(LoadMemShift(14)); // X = IP header length
    asm.Emit(LoadIndirect(16, 2)); // destination port
    asm.EmitJump(JumpEqual, 67, "accept", "");
    asm.EmitJump(JumpEqual, 320, "accept", "");
    asm.EmitJump(JumpEqual, 319, "accept", "");
  }

  method EmitSourcePort(asm: BpfAsm)
    requires asm.Emitting()
    modifies asm
    ensures asm.Emitting() && asm.items == old(asm.items) + SourcePortItems()
  {
    asm.Emit(LoadIndirect(14, 2));
    asm.EmitJump(JumpEqual, 67, "accept", "");
  }

  method EmitAnnounce(asm: BpfAsm)
    requires asm.Emitting()
    modifies asm
    ensures asm.Emitting() && asm.items == old(asm.items) + AnnounceItems()
  {
    asm.EmitJump(JumpEqual, GGO_BUS_PORT as bv32, "g5h", "reject");
    asm.SetLabel("g5h");
    asm.Emit(LoadIndirect(22, 2));
    asm.EmitJump(JumpEqual, 0x4735, "", "reject");
    asm.Emit(LoadIndirect(24, 1));
    asm.EmitJump(JumpEqual, 0x68, "accept", "reject");
  }

  method EmitVerdicts(asm: BpfAsm)
    requires asm.Emitting()
    modifies asm
    ensures asm.Emitting() && asm.items == old(asm.items) + VerdictItems()
  {
    asm.SetLabel("reject");
    asm.Emit(RetConstant(REJECT));
    asm.SetLabel("accept");
    asm.Emit(RetConstant(ACCEPT));
  }

  /** buildAsm: the combined filter with unresolved jumps. */
  method BuildAsm(greengo: bool) returns (asm: BpfAsm)
    ensures fresh(asm) && asm.Emitting() && asm.items == SteadyItems(greengo)
  {
    hide CodeOf, LabelsOf, JumpsOf;
    hide EtherTypeItems, GroupMacItems, Ipv4Items, DestPortItems, SourcePortItems, AnnounceItems, VerdictItems;
    asm := new BpfAsm();
    EmitEtherTypes(asm);
    EmitGroupMac(asm, 0x01000ccc, 0xcccc, "after_cdp");
    EmitGroupMac(asm, 0x0180c200, 0x0000, "after_bpdu");
    EmitIpv4(asm);
    EmitDestPort(asm);
    if greengo {
      asm.EmitJump(JumpEqual, GGO_BUS_PORT as bv32, "g5h", "");
    }
    EmitSourcePort(asm);
    if greengo {
      EmitAnnounce(asm);
    }
    EmitVerdicts(asm);
  }

  // ---- The onboarding probe's filter ----

  function ProbeClauseItems(shift: nat): seq<Item> {
    [ Op(LoadAbsolute(23 + shift, 1)),
      Jump(JumpEqual, PROTO_UDP as bv32, "", "reject"),
      Op(LoadAbsolute(20 + shift, 2)),
      Jump(JumpBitsSet, 0x1fff, "reject", ""),
      Op(LoadMemShift(14 + shift)),
      Op(LoadIndirect(14 + shift, 2)),
      Jump(JumpEqual, 67, "accept", "reject") ]
  }

  function ProbeItems(): seq<Item> {
    [ Op(LoadAbsolute(12, 2)),
      Jump(JumpEqual, ETHERTYPE_VLAN as bv32, "tagged", ""),
      Jump(JumpEqual, ETHERTYPE_IPV4 as bv32, "", "reject") ]
    + ProbeClauseItems(0)
    + [ Label("tagged"),
        Op(LoadAbsolute(16, 2)),
        Jump(JumpEqual, ETHERTYPE_IPV4 as bv32, "", "reject") ]
    + ProbeClauseItems(4)
    + VerdictItems()
  }

  method EmitProbeClause(asm: BpfAsm, shift: nat)
    requires asm.Emitting()
    modifies asm
    ensures asm.Emitting() && asm.items == old(asm.items) + ProbeClauseItems(shift)
  {
    asm.Emit(LoadAbsolute(23 + shift, 1));
    asm.EmitJump(JumpEqual, PROTO_UDP as bv32, "", "reject");
    asm.Emit(LoadAbsolute(20 + shift, 2));
    asm.EmitJump(JumpBitsSet, 0x1fff, "reject", "");
    asm.Emit(LoadMemShift(14 + shift));
    asm.Emit(LoadIndirect(14 + shift, 2));
    asm.EmitJump(JumpEqual, 67, "accept", "reject");
  }

  /** rogueOfferInstructions, up to its final resolve. */
  method BuildProbeAsm() returns (asm: BpfAsm)
    ensures fresh(asm) && asm.Emitting() && asm.items == ProbeItems()
  {
    hide ProbeClauseItems, VerdictItems;
    asm := new BpfAsm();
    asm.Emit(LoadAbsolute(12, 2));
    asm.EmitJump(JumpEqual, ETHERTYPE_VLAN as bv32, "tagged", "");
    asm.EmitJump(JumpEqual, ETHERTYPE_IPV4 as bv32, "", "reject");
    ghost var head := asm.items;
    assert head == [Op(LoadAbsolute(12, 2)), Jump(JumpEqual, ETHERTYPE_VLAN as bv32, "tagged", ""),
                    Jump(JumpEqual, ETHERTYPE_IPV4 as bv32, "", "reject")];
    EmitProbeClause(asm, 0);
    ghost var untagged := asm.items;
    asm.SetLabel("tagged");
    asm.Emit(LoadAbsolute(16, 2));
    asm.EmitJump(JumpEqual, ETHERTYPE_IPV4 as bv32, "", "reject");
    assert asm.items == untagged + [Label("tagged"), Op(LoadAbsolute(16, 2)),
                                    Jump(JumpEqual, ETHERTYPE_IPV4 as bv32, "", "reject")];
    EmitProbeClause(asm, 4);
    EmitVerdicts(asm);
  }
}
