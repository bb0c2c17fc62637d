/** Exactly which frames the filters accept, and that the detectors lose nothing. */
module FilterMeaning {
  import opened Common
  import opened BpfMachine
  import opened BpfAssembler
  import opened Frames
  import opened Filters

  // ---- The steady-state filter's frame classes ----

  predicate IsGroupMac(b: Bytes, hi: bv32, lo: bv16)
    requires |b| >= 14
  {
    Be32(b, 0) == hi && Be16(b, 4) == lo
  }

  /** The announce subtype: the payload after the UDP header starts 47 35 68. */
  predicate IsAnnounce(b: Bytes, x: nat) {
    x + 25 <= |b| && Be16(b, x + 22) == 0x4735 && b[x + 24] == 0x68
  }

  predicate FirstFragment(v: bv16) {
    v & 0x1fff == 0
  }

  predicate WantedUdp(greengo: bool, b: Bytes, x: nat) {
    && x + 18 <= |b|
    && var sport, dport := Be16(b, x + 14), Be16(b, x + 16);
       if dport == 67 || dport == 319 || dport == 320 then true
       else if greengo && dport == GGO_BUS_PORT then IsAnnounce(b, x)
       else if sport == 67 then true
       else greengo && sport == GGO_BUS_PORT && IsAnnounce(b, x)
  }

  predicate WantedIpv4(greengo: bool, b: Bytes) {
    && |b| >= 24
    && (|| b[23] == PROTO_IGMP
        || (b[23] == PROTO_UDP && FirstFragment(Be16(b, 20)) && WantedUdp(greengo, b, HeaderLen(b[14]))))
  }

  predicate Wanted(greengo: bool, b: Bytes) {
    && |b| >= 14
    && (|| Be16(b, 12) in {ETHERTYPE_VLAN, ETHERTYPE_LLDP, ETHERTYPE_PTP, ETHERTYPE_ARP}
        || IsGroupMac(b, 0x01000ccc, 0xcccc)
        || IsGroupMac(b, 0x0180c200, 0x0000)
        || (Be16(b, 12) == ETHERTYPE_IPV4 && WantedIpv4(greengo, b)))
  }

  // ---- Running the labelled filter, last block first ----

  function SportPos(greengo: bool): nat { if greengo then 30 else 29 }
  function RejectPos(greengo: bool): nat { if greengo then 38 else 31 }

  lemma SteadyLayout(greengo: bool)
    ensures var it := SteadyItems(greengo);
            && |it| == RejectPos(greengo) + 4
            && it[..5] == EtherTypeItems()
            && it[5..10] == GroupMacItems(0x01000ccc, 0xcccc, "after_cdp")
            && it[10..15] == GroupMacItems(0x0180c200, 0x0000, "after_bpdu")
            && it[15..21] == Ipv4Items()
            && it[21..29] == DestPortItems()
            && (greengo ==> it[29] == Jump(JumpEqual, GGO_BUS_PORT as bv32, "g5h", "") && it[32..38] == AnnounceItems())
            && it[SportPos(greengo)..SportPos(greengo) + 2] == SourcePortItems()
            && it[RejectPos(greengo)..] == VerdictItems()
  {
    BlockSizes();
    hide EtherTypeItems, GroupMacItems, Ipv4Items, DestPortItems, SourcePortItems, AnnounceItems, VerdictItems;
    var s2 := EtherTypeItems() + GroupMacItems(0x01000ccc, 0xcccc, "after_cdp");
    Appended(EtherTypeItems(), GroupMacItems(0x01000ccc, 0xcccc, "after_cdp"));
    Appended(s2, GroupMacItems(0x0180c200, 0x0000, "after_bpdu"));
    var s3 := s2 + GroupMacItems(0x0180c200, 0x0000, "after_bpdu");
    Appended(s3, Ipv4Items());
    var s4 := s3 + Ipv4Items();
    Appended(s4, DestPortItems());
    var s5 := s4 + DestPortItems();
    var busPort := if greengo then [Jump(JumpEqual, GGO_BUS_PORT as bv32, "g5h", "")] else [];
    Appended(s5, busPort);
    var s6 := s5 + busPort;
    Appended(s6, SourcePortItems());
    var s7 := s6 + SourcePortItems();
    var announce := if greengo then AnnounceItems() else [];
    Appended(s7, announce);
    var s8 := s7 + announce;
    Appended(s8, VerdictItems());
    assert SteadyItems(greengo) == s8 + VerdictItems();
    assert greengo ==> s6[29] == s6[29..30][0];
  }

  lemma BlockSizes()
    ensures |EtherTypeItems()| == 5 && |Ipv4Items()| == 6 && |DestPortItems()| == 8
    ensures |SourcePortItems()| == 2 && |AnnounceItems()| == 6 && |VerdictItems()| == 4
    ensures |GroupMacItems(0x01000ccc, 0xcccc, "after_cdp")| == 5
    ensures |GroupMacItems(0x0180c200, 0x0000, "after_bpdu")| == 5
  {
  }

  /** Appending t leaves every slice of s in place and puts t at its end. */
  lemma Appended<T>(s: seq<T>, t: seq<T>)
    ensures (s + t)[|s|..|s| + |t|] == t && (s + t)[|s|..] == t && (s + t)[..|s|] == s
    ensures forall lo, hi | 0 <= lo <= hi <= |s| :: (s + t)[lo..hi] == s[lo..hi]
  {
  }

  predicate OnlyLabel(block: seq<Item>, k: nat, name: string) {
    k < |block| && block[k] == Label(name) && forall i :: 0 <= i < |block| && i != k ==> !block[i].Label?
  }

  predicate Unlabelled(block: seq<Item>) {
    forall i :: 0 <= i < |block| ==> !block[i].Label?
  }

  lemma BlockLabels()
    ensures Unlabelled(EtherTypeItems())
    ensures OnlyLabel(GroupMacItems(0x01000ccc, 0xcccc, "after_cdp"), 4, "after_cdp")
    ensures OnlyLabel(GroupMacItems(0x0180c200, 0x0000, "after_bpdu"), 4, "after_bpdu")
    ensures OnlyLabel(Ipv4Items(), 2, "ipv4")
    ensures OnlyLabel(DestPortItems(), 0, "udp")
    ensures Unlabelled(SourcePortItems())
    ensures OnlyLabel(AnnounceItems(), 1, "g5h")
    ensures OnlyLabel(VerdictItems()[..2], 0, "reject")
    ensures OnlyLabel(VerdictItems()[2..], 0, "accept")
  {
  }

  /** Every label from position lo on has one of the given names. */
  predicate LabelsWithin(items: seq<Item>, lo: nat, names: set<string>) {
    forall j :: lo <= j < |items| && items[j].Label? ==> items[j].name in names
  }

  lemma FoundInBlock(items: seq<Item>, lo: nat, hi: nat, k: nat, name: string, names: set<string>)
    requires lo + k < hi <= |items| && OnlyLabel(items[lo..hi], k, name)
    requires LabelsWithin(items, hi, names) && name !in names
    ensures LastLabel(items, name) == Some(lo + k)
    ensures LabelsWithin(items, lo, {name} + names)
  {
    assert items[lo..hi][k] == items[lo + k];
    forall j | lo <= j < hi && j != lo + k ensures !items[j].Label? {
      assert items[j] == items[lo..hi][j - lo];
    }
  }

  lemma NoneInBlock(items: seq<Item>, lo: nat, hi: nat, names: set<string>)
    requires lo <= hi <= |items| && Unlabelled(items[lo..hi])
    requires LabelsWithin(items, hi, names)
    ensures LabelsWithin(items, lo, names)
  {
    forall j | lo <= j < hi ensures !items[j].Label? {
      assert items[j] == items[lo..hi][j - lo];
    }
  }

  lemma SplitTail<T>(s: seq<T>, k: nat)
    requires k + 4 == |s|
    ensures s[k..k + 2] == s[k..][..2] && s[k + 2..k + 4] == s[k..][2..]
  {
  }

  lemma SteadyLabels(greengo: bool)
    ensures var it := SteadyItems(greengo);
            && LastLabel(it, "after_cdp") == Some(9)
            && LastLabel(it, "after_bpdu") == Some(14)
            && LastLabel(it, "ipv4") == Some(17)
            && LastLabel(it, "udp") == Some(21)
            && (greengo ==> LastLabel(it, "g5h") == Some(33))
            && LastLabel(it, "reject") == Some(RejectPos(greengo))
            && LastLabel(it, "accept") == Some(RejectPos(greengo) + 2)
  {
    SteadyLayout(greengo);
    BlockLabels();
    hide EtherTypeItems, GroupMacItems, Ipv4Items, DestPortItems, SourcePortItems, AnnounceItems, VerdictItems,
         SteadyItems, LastLabel;
    hide LabelsWithin, OnlyLabel;
    var it, rej := SteadyItems(greengo), RejectPos(greengo);
    SplitTail(it, rej);
    NoLabelsPastTheEnd(it);
    FoundInBlock(it, rej + 2, rej + 4, 0, "accept", {});
    var tail := {"accept"} + {};
    FoundInBlock(it, rej, rej + 2, 0, "reject", tail);
    tail := {"reject"} + tail;
    if greengo {
      FoundInBlock(it, 32, 38, 1, "g5h", tail);
      tail := {"g5h"} + tail;
      NoneInBlock(it, 30, 32, tail);
      assert it[29..30] == [it[29]];
      NoneInBlock(it, 29, 30, tail);
    } else {
      NoneInBlock(it, 29, 31, tail);
    }
    EarlierLabels(it, tail);
  }

  lemma NoLabelsPastTheEnd(items: seq<Item>)
    ensures LabelsWithin(items, |items|, {})
  {
  }

  lemma EarlierLabels(it: seq<Item>, names: set<string>)
    requires |it| >= 29 && LabelsWithin(it, 29, names) && names <= {"accept", "reject", "g5h"}
    requires it[5..10] == GroupMacItems(0x01000ccc, 0xcccc, "after_cdp")
    requires it[10..15] == GroupMacItems(0x0180c200, 0x0000, "after_bpdu")
    requires it[15..21] == Ipv4Items()
    requires it[21..29] == DestPortItems()
    ensures LastLabel(it, "after_cdp") == Some(9)
    ensures LastLabel(it, "after_bpdu") == Some(14)
    ensures LastLabel(it, "ipv4") == Some(17)
    ensures LastLabel(it, "udp") == Some(21)
  {
    BlockLabels();
    hide GroupMacItems, Ipv4Items, DestPortItems, LastLabel, LabelsWithin, OnlyLabel;
    FoundInBlock(it, 21, 29, 0, "udp", names);
    var tail := {"udp"} + names;
    FoundInBlock(it, 15, 21, 2, "ipv4", tail);
    tail := {"ipv4"} + tail;
    FoundInBlock(it, 10, 15, 4, "after_bpdu", tail);
    tail := {"after_bpdu"} + tail;
    FoundInBlock(it, 5, 10, 4, "after_cdp", tail);
  }

  // ---- Running each block, the last one first ----

  ghost predicate Ends(greengo: bool, p: nat, r: Regs, b: Bytes, accept: bool) {
    RunLabelled(SteadyItems(greengo), p, r, b) == Ret(if accept then ACCEPT else REJECT)
  }

  lemma RunVerdicts(greengo: bool, r: Regs, b: Bytes)
    ensures Ends(greengo, RejectPos(greengo), r, b, false)
    ensures Ends(greengo, RejectPos(greengo) + 2, r, b, true)
  {
    SteadyLayout(greengo);
    var it, rej := SteadyItems(greengo), RejectPos(greengo);
    hide EtherTypeItems, GroupMacItems, Ipv4Items, DestPortItems, SourcePortItems, AnnounceItems, SteadyItems;
    assert it[rej] == it[rej..][0] && it[rej + 1] == it[rej..][1] && it[rej + 2] == it[rej..][2]
           && it[rej + 3] == it[rej..][3];
    assert RunLabelled(it, rej + 1, r, b) == Ret(REJECT);
    assert RunLabelled(it, rej + 3, r, b) == Ret(ACCEPT);
  }

  lemma StepLoad(items: seq<Item>, p: nat, ins: Instr, r: Regs, b: Bytes)
    requires p < |items| && items[p] == Op(ins) && !ins.JumpIf? && !ins.RetConstant?
    ensures RunLabelled(items, p, r, b) ==
            if Exec(ins, r, b).None? then Ret(REJECT) else RunLabelled(items, p + 1, Exec(ins, r, b).value, b)
  {
  }

  lemma StepLabel(items: seq<Item>, p: nat, r: Regs, b: Bytes)
    requires p < |items| && items[p].Label?
    ensures RunLabelled(items, p, r, b) == RunLabelled(items, p + 1, r, b)
  {
  }

  lemma StepJump(items: seq<Item>, p: nat, jump: Item, t: nat, f: nat, r: Regs, b: Bytes)
    requires p < |items| && items[p] == jump && jump.Jump?
    requires Target(items, p, jump.onTrue) == Some(t) && Target(items, p, jump.onFalse) == Some(f)
    ensures RunLabelled(items, p, r, b) == RunLabelled(items, if Holds(jump.cond, r.a, jump.val) then t else f, r, b)
  {
  }

  lemma AnnounceCode()
    ensures var it := SteadyItems(true);
            && |it| == 42
            && it[33] == Label("g5h")
            && it[34] == Op(LoadIndirect(22, 2))
            && it[35] == Jump(JumpEqual, 0x4735, "", "reject")
            && it[36] == Op(LoadIndirect(24, 1))
            && it[37] == Jump(JumpEqual, 0x68, "accept", "reject")
            && Target(it, 35, "reject") == Some(38) && Target(it, 37, "reject") == Some(38)
            && Target(it, 37, "accept") == Some(40)
  {
    SteadyLayout(true);
    SteadyLabels(true);
    var it := SteadyItems(true);
    hide EtherTypeItems, GroupMacItems, Ipv4Items, DestPortItems, SourcePortItems, VerdictItems, SteadyItems;
    forall k | 0 <= k < 6 ensures it[32 + k] == AnnounceItems()[k] { assert it[32 + k] == it[32..38][k]; }
    assert it[33] == it[32 + 1] && it[34] == it[32 + 2] && it[35] == it[32 + 3] && it[36] == it[32 + 4]
           && it[37] == it[32 + 5];
  }

  lemma RunAnnounce(r: Regs, b: Bytes)
    ensures Ends(true, 33, r, b, IsAnnounce(b, r.x))
  {
    AnnounceCode();
    var it := SteadyItems(true);
    hide SteadyItems, RunLabelled, LastLabel;
    StepLabel(it, 33, r, b);
    StepLoad(it, 34, LoadIndirect(22, 2), r, b);
    if r.x + 24 <= |b| {
      var r1 := Regs(Be16(b, 22 + r.x) as bv32, r.x);
      StepJump(it, 35, it[35], 36, 38, r1, b);
      RunVerdicts(true, r1, b);
      if Be16(b, 22 + r.x) == 0x4735 {
        StepLoad(it, 36, LoadIndirect(24, 1), r1, b);
        if r.x + 25 <= |b| {
          var r2 := Regs(b[24 + r.x] as bv32, r.x);
          StepJump(it, 37, it[37], 40, 38, r2, b);
          RunVerdicts(true, r2, b);
        }
      }
    }
  }

  lemma SportCode(greengo: bool)
    ensures var it, sp := SteadyItems(greengo), SportPos(greengo);
            && |it| == RejectPos(greengo) + 4
            && it[sp] == Op(LoadIndirect(14, 2))
            && it[sp + 1] == Jump(JumpEqual, 67, "accept", "")
            && Target(it, sp + 1, "accept") == Some(RejectPos(greengo) + 2)
            && Target(it, sp + 1, "") == Some(sp + 2)
            && (greengo ==> it[32] == Jump(JumpEqual, GGO_BUS_PORT as bv32, "g5h", "reject")
                            && Target(it, 32, "g5h") == Some(33) && Target(it, 32, "reject") == Some(38))
  {
    SteadyLayout(greengo);
    SteadyLabels(greengo);
    var it, sp := SteadyItems(greengo), SportPos(greengo);
    hide EtherTypeItems, GroupMacItems, Ipv4Items, DestPortItems, VerdictItems, SteadyItems;
    assert it[sp] == it[sp..sp + 2][0] && it[sp + 1] == it[sp..sp + 2][1];
    if greengo { assert it[32] == it[32..38][0]; }
  }

  /** From the source-port load on: the destination port is already known not to decide. */
  lemma RunSport(greengo: bool, r: Regs, b: Bytes)
    requires r.x + 16 <= |b|
    ensures Ends(greengo, SportPos(greengo), r, b,
                 Be16(b, r.x + 14) == 67 || (greengo && Be16(b, r.x + 14) == GGO_BUS_PORT && IsAnnounce(b, r.x)))
  {
    SportCode(greengo);
    var it, sp := SteadyItems(greengo), SportPos(greengo);
    hide SteadyItems, RunLabelled, LastLabel;
    StepLoad(it, sp, LoadIndirect(14, 2), r, b);
    var r1 := Regs(Be16(b, r.x + 14) as bv32, r.x);
    StepJump(it, sp + 1, it[sp + 1], RejectPos(greengo) + 2, sp + 2, r1, b);
    RunVerdicts(greengo, r1, b);
    if greengo {
      StepJump(it, 32, it[32], 33, 38, r1, b);
      RunAnnounce(r1, b);
    }
  }

  lemma DestCode(greengo: bool)
    ensures var it, acc, rej := SteadyItems(greengo), RejectPos(greengo) + 2, RejectPos(greengo);
            && |it| == RejectPos(greengo) + 4
            && it[21] == Label("udp")
            && it[22] == Op(LoadAbsolute(20, 2))
            && it[23] == Jump(JumpBitsSet, 0x1fff, "reject", "")
            && it[24] == Op(LoadMemShift(14))
            && it[25] == Op(LoadIndirect(16, 2))
            && it[26] == Jump(JumpEqual, 67, "accept", "")
            && it[27] == Jump(JumpEqual, 320, "accept", "")
            && it[28] == Jump(JumpEqual, 319, "accept", "")
            && Target(it, 23, "reject") == Some(rej)
            && Target(it, 26, "accept") == Some(acc) && Target(it, 27, "accept") == Some(acc)
            && Target(it, 28, "accept") == Some(acc)
            && (greengo ==>
                it[29] == Jump(JumpEqual, GGO_BUS_PORT as bv32, "g5h", "") && Target(it, 29, "g5h") == Some(33))
  {
    hide EtherTypeItems, GroupMacItems, Ipv4Items, DestPortItems, SourcePortItems, AnnounceItems, VerdictItems,
         SteadyItems, LastLabel;
    SteadyLayout(greengo);
    SteadyLabels(greengo);
    DestBlock(SteadyItems(greengo));
  }

  lemma DestBlock(it: seq<Item>)
    requires |it| >= 29 && it[21..29] == DestPortItems()
    ensures it[21] == Label("udp")
    ensures it[22] == Op(LoadAbsolute(20, 2))
    ensures it[23] == Jump(JumpBitsSet, 0x1fff, "reject", "")
    ensures it[24] == Op(LoadMemShift(14))
    ensures it[25] == Op(LoadIndirect(16, 2))
    ensures it[26] == Jump(JumpEqual, 67, "accept", "")
    ensures it[27] == Jump(JumpEqual, 320, "accept", "")
    ensures it[28] == Jump(JumpEqual, 319, "accept", "")
  {
    forall k | 0 <= k < 8 ensures it[21 + k] == DestPortItems()[k] { assert it[21 + k] == it[21..29][k]; }
    assert it[22] == it[21 + 1] && it[23] == it[21 + 2] && it[24] == it[21 + 3] && it[25] == it[21 + 4];
    assert it[26] == it[21 + 5] && it[27] == it[21 + 6] && it[28] == it[21 + 7];
  }

  lemma RunPorts(greengo: bool, r: Regs, b: Bytes)
    requires |b| >= 24
    ensures Ends(greengo, 25, r, b, WantedUdp(greengo, b, r.x))
  {
    DestCode(greengo);
    var it, acc := SteadyItems(greengo), RejectPos(greengo) + 2;
    hide SteadyItems, RunLabelled, LastLabel;
    StepLoad(it, 25, LoadIndirect(16, 2), r, b);
    if r.x + 18 <= |b| {
      var r1 := Regs(Be16(b, r.x + 16) as bv32, r.x);
      StepJump(it, 26, it[26], acc, 27, r1, b);
      StepJump(it, 27, it[27], acc, 28, r1, b);
      StepJump(it, 28, it[28], acc, 29, r1, b);
      RunVerdicts(greengo, r1, b);
      RunSport(greengo, r1, b);
      if greengo {
        StepJump(it, 29, it[29], 33, 30, r1, b);
        RunAnnounce(r1, b);
      }
    }
  }

  lemma FragmentMask(v: bv16)
    ensures Holds(JumpBitsSet, v as bv32, 0x1fff) <==> !FirstFragment(v)
  {
  }

  lemma RunHeaderLen(greengo: bool, r: Regs, b: Bytes)
    requires |b| >= 24
    ensures Ends(greengo, 24, r, b, WantedUdp(greengo, b, HeaderLen(b[14])))
  {
    DestCode(greengo);
    var it := SteadyItems(greengo);
    hide SteadyItems, RunLabelled, LastLabel, WantedUdp;
    StepLoad(it, 24, LoadMemShift(14), r, b);
    RunPorts(greengo, Regs(r.a, HeaderLen(b[14])), b);
  }

  lemma RunUdp(greengo: bool, r: Regs, b: Bytes)
    requires |b| >= 24
    ensures Ends(greengo, 21, r, b, FirstFragment(Be16(b, 20)) && WantedUdp(greengo, b, HeaderLen(b[14])))
  {
    DestCode(greengo);
    hide SteadyItems, RunLabelled, LastLabel, WantedUdp, Be16, Holds, HeaderLen, FirstFragment, Exec;
    var it, rej := SteadyItems(greengo), RejectPos(greengo);
    LoadsWord(20, r, b);
    StepLabel(it, 21, r, b);
    StepLoad(it, 22, LoadAbsolute(20, 2), r, b);
    var v := Be16(b, 20);
    FragmentMask(v);
    var r1 := Regs(v as bv32, r.x);
    StepJump(it, 23, it[23], rej, 24, r1, b);
    RunVerdicts(greengo, r1, b);
    RunHeaderLen(greengo, r1, b);
  }

  lemma Ipv4Code(greengo: bool)
    ensures var it, acc, rej := SteadyItems(greengo), RejectPos(greengo) + 2, RejectPos(greengo);
            && |it| == RejectPos(greengo) + 4
            && it[15] == Op(LoadAbsolute(12, 2))
            && it[16] == Jump(JumpEqual, ETHERTYPE_IPV4 as bv32, "ipv4", "reject")
            && it[17] == Label("ipv4")
            && it[18] == Op(LoadAbsolute(23, 1))
            && it[19] == Jump(JumpEqual, PROTO_IGMP as bv32, "accept", "")
            && it[20] == Jump(JumpEqual, PROTO_UDP as bv32, "udp", "reject")
            && Target(it, 16, "ipv4") == Some(17) && Target(it, 16, "reject") == Some(rej)
            && Target(it, 19, "accept") == Some(acc)
            && Target(it, 20, "udp") == Some(21) && Target(it, 20, "reject") == Some(rej)
  {
    SteadyLayout(greengo);
    var it := SteadyItems(greengo);
    hide EtherTypeItems, GroupMacItems, DestPortItems, SourcePortItems, AnnounceItems, VerdictItems, SteadyItems,
         LastLabel;
    SteadyLabels(greengo);
    forall k | 0 <= k < 6 ensures it[15 + k] == Ipv4Items()[k] { assert it[15 + k] == it[15..21][k]; }
    assert it[16] == it[15 + 1] && it[17] == it[15 + 2] && it[18] == it[15 + 3] && it[19] == it[15 + 4]
           && it[20] == it[15 + 5];
  }

  lemma RunIpv4(greengo: bool, r: Regs, b: Bytes)
    requires |b| >= 14
    ensures Ends(greengo, 15, r, b, Be16(b, 12) == ETHERTYPE_IPV4 && WantedIpv4(greengo, b))
  {
    Ipv4Code(greengo);
    var it, acc, rej := SteadyItems(greengo), RejectPos(greengo) + 2, RejectPos(greengo);
    hide SteadyItems, RunLabelled, LastLabel, WantedUdp, Be16, HeaderLen, FirstFragment;
    StepLoad(it, 15, LoadAbsolute(12, 2), r, b);
    var r1 := Regs(Be16(b, 12) as bv32, r.x);
    StepJump(it, 16, it[16], 17, rej, r1, b);
    RunVerdicts(greengo, r1, b);
    StepLabel(it, 17, r1, b);
    StepLoad(it, 18, LoadAbsolute(23, 1), r1, b);
    if |b| >= 24 {
      var r2 := Regs(b[23] as bv32, r.x);
      StepJump(it, 19, it[19], acc, 20, r2, b);
      StepJump(it, 20, it[20], 21, rej, r2, b);
      RunVerdicts(greengo, r2, b);
      RunUdp(greengo, r2, b);
    }
  }

  lemma GroupMacCode(greengo: bool)
    ensures var it, acc := SteadyItems(greengo), RejectPos(greengo) + 2;
            && |it| == RejectPos(greengo) + 4
            && it[5..10] == GroupMacItems(0x01000ccc, 0xcccc, "after_cdp")
            && it[10..15] == GroupMacItems(0x0180c200, 0x0000, "after_bpdu")
            && Target(it, 6, "after_cdp") == Some(9) && Target(it, 8, "accept") == Some(acc)
            && Target(it, 11, "after_bpdu") == Some(14) && Target(it, 13, "accept") == Some(acc)
  {
    SteadyLayout(greengo);
    hide EtherTypeItems, GroupMacItems, DestPortItems, SourcePortItems, AnnounceItems, VerdictItems, SteadyItems,
         LastLabel;
    SteadyLabels(greengo);
  }

  ghost predicate EndsAnyhow(greengo: bool, p: nat, b: Bytes, accept: bool) {
    forall r :: RunLabelled(SteadyItems(greengo), p, r, b) == Ret(if accept then ACCEPT else REJECT)
  }

  /** A group-MAC block accepts its own group and otherwise falls through to its end. */
  lemma RunGroupMac(greengo: bool, p: nat, hi: bv32, lo: bv16, after: string, r: Regs, b: Bytes, otherwise: bool)
    requires |b| >= 14
    requires p + 5 <= |SteadyItems(greengo)|
    requires SteadyItems(greengo)[p..p + 5] == GroupMacItems(hi, lo as bv32, after)
    requires Target(SteadyItems(greengo), p + 1, after) == Some(p + 4)
    requires Target(SteadyItems(greengo), p + 3, "accept") == Some(RejectPos(greengo) + 2)
    requires EndsAnyhow(greengo, p + 5, b, otherwise)
    ensures Ends(greengo, p, r, b, IsGroupMac(b, hi, lo) || otherwise)
  {
    var it := SteadyItems(greengo);
    assert it[p] == it[p..p + 5][0] && it[p + 1] == it[p..p + 5][1] && it[p + 2] == it[p..p + 5][2];
    assert it[p + 3] == it[p..p + 5][3] && it[p + 4] == it[p..p + 5][4];
    hide SteadyItems, RunLabelled, LastLabel, Be16, Be32, Holds;
    StepLoad(it, p, LoadAbsolute(0, 4), r, b);
    var r1 := Regs(Be32(b, 0), r.x);
    StepJump(it, p + 1, Jump(JumpEqual, hi, "", after), p + 2, p + 4, r1, b);
    StepLabel(it, p + 4, r1, b);
    RunGroupMacTail(greengo, p, lo, after, r1, b, otherwise);
    EqualHolds(r1.a, hi);
  }

  lemma EqualHolds(a: bv32, v: bv32)
    ensures Holds(JumpEqual, a, v) <==> a == v
  {
  }

  lemma ByteEquals(a: bv8, v: bv8)
    ensures Holds(JumpEqual, a as bv32, v as bv32) <==> a == v
  {
  }

  lemma WordEquals(a: bv16, v: bv16)
    ensures Holds(JumpEqual, a as bv32, v as bv32) <==> a == v
  {
  }

  lemma RunGroupMacTail(greengo: bool, p: nat, lo: bv16, after: string, r: Regs, b: Bytes, otherwise: bool)
    requires |b| >= 14
    requires p + 5 <= |SteadyItems(greengo)|
    requires SteadyItems(greengo)[p + 2] == Op(LoadAbsolute(4, 2))
    requires SteadyItems(greengo)[p + 3] == Jump(JumpEqual, lo as bv32, "accept", "")
    requires SteadyItems(greengo)[p + 4] == Label(after)
    requires Target(SteadyItems(greengo), p + 3, "accept") == Some(RejectPos(greengo) + 2)
    requires EndsAnyhow(greengo, p + 5, b, otherwise)
    ensures Ends(greengo, p + 2, r, b, Be16(b, 4) == lo || otherwise)
  {
    var it := SteadyItems(greengo);
    hide SteadyItems, RunLabelled, LastLabel, Be16;
    StepLoad(it, p + 2, LoadAbsolute(4, 2), r, b);
    var r2 := Regs(Be16(b, 4) as bv32, r.x);
    StepJump(it, p + 3, it[p + 3], RejectPos(greengo) + 2, p + 4, r2, b);
    StepLabel(it, p + 4, r2, b);
    RunVerdicts(greengo, r2, b);
  }

  lemma RunIpv4Anyhow(greengo: bool, b: Bytes)
    requires |b| >= 14
    ensures EndsAnyhow(greengo, 15, b, Be16(b, 12) == ETHERTYPE_IPV4 && WantedIpv4(greengo, b))
  {
    forall r ensures RunLabelled(SteadyItems(greengo), 15, r, b) ==
                     Ret(if Be16(b, 12) == ETHERTYPE_IPV4 && WantedIpv4(greengo, b) then ACCEPT else REJECT) {
      RunIpv4(greengo, r, b);
    }
  }

  lemma RunBpduAnyhow(greengo: bool, b: Bytes, otherwise: bool)
    requires |b| >= 14 && EndsAnyhow(greengo, 15, b, otherwise)
    ensures EndsAnyhow(greengo, 10, b, IsGroupMac(b, 0x0180c200, 0x0000) || otherwise)
  {
    forall r ensures RunLabelled(SteadyItems(greengo), 10, r, b) ==
                     Ret(if IsGroupMac(b, 0x0180c200, 0x0000) || otherwise then ACCEPT else REJECT) {
      GroupMacCode(greengo);
      hide SteadyItems, RunLabelled, LastLabel;
      RunGroupMac(greengo, 10, 0x0180c200, 0x0000, "after_bpdu", r, b, otherwise);
    }
  }

  lemma EtherTypeCode(greengo: bool)
    ensures var it, acc := SteadyItems(greengo), RejectPos(greengo) + 2;
            && |it| == RejectPos(greengo) + 4
            && it[0] == Op(LoadAbsolute(12, 2))
            && it[1] == Jump(JumpEqual, ETHERTYPE_VLAN as bv32, "accept", "")
            && it[2] == Jump(JumpEqual, ETHERTYPE_LLDP as bv32, "accept", "")
            && it[3] == Jump(JumpEqual, ETHERTYPE_PTP as bv32, "accept", "")
            && it[4] == Jump(JumpEqual, ETHERTYPE_ARP as bv32, "accept", "")
            && forall p :: p < 5 ==> Target(it, p, "accept") == Some(acc)
  {
    SteadyLayout(greengo);
    var it := SteadyItems(greengo);
    hide GroupMacItems, DestPortItems, SourcePortItems, AnnounceItems, VerdictItems, SteadyItems, LastLabel;
    SteadyLabels(greengo);
    forall k | 0 <= k < 5 ensures it[k] == EtherTypeItems()[k] { assert it[k] == it[..5][k]; }
  }

  lemma RunEtherTypes(greengo: bool, x: nat, b: Bytes, otherwise: bool)
    requires |b| >= 14 && EndsAnyhow(greengo, 5, b, otherwise)
    ensures var t := Be16(b, 12);
            Ends(greengo, 1, Regs(t as bv32, x), b,
              t == ETHERTYPE_VLAN || t == ETHERTYPE_LLDP || t == ETHERTYPE_PTP || t == ETHERTYPE_ARP || otherwise)
  {
    EtherTypeCode(greengo);
    hide SteadyItems, RunLabelled, LastLabel, Be16, Holds, RejectPos;
    var it, acc := SteadyItems(greengo), RejectPos(greengo) + 2;
    var t := Be16(b, 12);
    var r := Regs(t as bv32, x);
    StepJump(it, 1, it[1], acc, 2, r, b);
    StepJump(it, 2, it[2], acc, 3, r, b);
    StepJump(it, 3, it[3], acc, 4, r, b);
    StepJump(it, 4, it[4], acc, 5, r, b);
    WordEquals(t, ETHERTYPE_VLAN);
    WordEquals(t, ETHERTYPE_LLDP);
    WordEquals(t, ETHERTYPE_PTP);
    WordEquals(t, ETHERTYPE_ARP);
    RunVerdicts(greengo, r, b);
  }

  lemma RunCdpAnyhow(greengo: bool, b: Bytes, otherwise: bool)
    requires |b| >= 14 && EndsAnyhow(greengo, 10, b, otherwise)
    ensures EndsAnyhow(greengo, 5, b, IsGroupMac(b, 0x01000ccc, 0xcccc) || otherwise)
  {
    forall r ensures RunLabelled(SteadyItems(greengo), 5, r, b) ==
                     Ret(if IsGroupMac(b, 0x01000ccc, 0xcccc) || otherwise then ACCEPT else REJECT) {
      GroupMacCode(greengo);
      hide SteadyItems, RunLabelled, LastLabel;
      RunGroupMac(greengo, 5, 0x01000ccc, 0xcccc, "after_cdp", r, b, otherwise);
    }
  }

  /** The labelled filter accepts exactly the documented frame classes. */
  lemma SteadyVerdict(greengo: bool, r: Regs, b: Bytes)
    ensures Ends(greengo, 0, r, b, Wanted(greengo, b))
  {
    EtherTypeCode(greengo);
    hide SteadyItems, RunLabelled, LastLabel, WantedIpv4, Be16, Be32, Holds, EndsAnyhow, IsGroupMac;
    StepLoad(SteadyItems(greengo), 0, LoadAbsolute(12, 2), r, b);
    if |b| >= 14 {
      var ip := Be16(b, 12) == ETHERTYPE_IPV4 && WantedIpv4(greengo, b);
      RunIpv4Anyhow(greengo, b);
      RunBpduAnyhow(greengo, b, ip);
      var bpdu := IsGroupMac(b, 0x0180c200, 0x0000) || ip;
      RunCdpAnyhow(greengo, b, bpdu);
      RunEtherTypes(greengo, r.x, b, IsGroupMac(b, 0x01000ccc, 0xcccc) || bpdu);
    }
  }

  // ---- The onboarding probe's filter ----

  /** First-fragment IPv4/UDP from port 67, the headers starting shift bytes later. */
  predicate ProbeClause(b: Bytes, shift: nat) {
    && 24 + shift <= |b| && b[23 + shift] == PROTO_UDP && FirstFragment(Be16(b, 20 + shift))
    && var x := HeaderLen(b[14 + shift]);
       16 + shift + x <= |b| && Be16(b, 14 + shift + x) == 67
  }

  predicate ProbeWanted(b: Bytes) {
    && |b| >= 14
    && if Be16(b, 12) == ETHERTYPE_VLAN then |b| >= 18 && Be16(b, 16) == ETHERTYPE_IPV4 && ProbeClause(b, 4)
       else Be16(b, 12) == ETHERTYPE_IPV4 && ProbeClause(b, 0)
  }

  ghost predicate ProbeEnds(p: nat, r: Regs, b: Bytes, accept: bool) {
    RunLabelled(ProbeItems(), p, r, b) == Ret(if accept then ACCEPT else REJECT)
  }

  lemma ProbeLayout()
    ensures var it := ProbeItems();
            && |it| == 24
            && it[0] == Op(LoadAbsolute(12, 2))
            && it[1] == Jump(JumpEqual, ETHERTYPE_VLAN as bv32, "tagged", "")
            && it[2] == Jump(JumpEqual, ETHERTYPE_IPV4 as bv32, "", "reject")
            && it[3..10] == ProbeClauseItems(0)
            && it[10] == Label("tagged")
            && it[11] == Op(LoadAbsolute(16, 2))
            && it[12] == Jump(JumpEqual, ETHERTYPE_IPV4 as bv32, "", "reject")
            && it[13..20] == ProbeClauseItems(4)
            && it[20..] == VerdictItems()
  {
  }

  lemma ProbeLabels()
    ensures LastLabel(ProbeItems(), "tagged") == Some(10)
    ensures LastLabel(ProbeItems(), "reject") == Some(20)
    ensures LastLabel(ProbeItems(), "accept") == Some(22)
  {
    ProbeLayout();
    BlockLabels();
    var it := ProbeItems();
    assert Unlabelled(ProbeClauseItems(4)) && Unlabelled(ProbeClauseItems(0));
    hide ProbeClauseItems, VerdictItems, ProbeItems, LastLabel, LabelsWithin;
    SplitTail(it, 20);
    NoLabelsPastTheEnd(it);
    FoundInBlock(it, 22, 24, 0, "accept", {});
    var tail := {"accept"} + {};
    FoundInBlock(it, 20, 22, 0, "reject", tail);
    tail := {"reject"} + tail;
    NoneInBlock(it, 13, 20, tail);
    assert it[10..13] == [it[10], it[11], it[12]];
    FoundInBlock(it, 10, 13, 0, "tagged", tail);
  }

  lemma RunProbeVerdicts(r: Regs, b: Bytes)
    ensures ProbeEnds(20, r, b, false)
    ensures ProbeEnds(22, r, b, true)
  {
    ProbeLayout();
    var it := ProbeItems();
    hide ProbeClauseItems, ProbeItems;
    assert it[20] == it[20..][0] && it[21] == it[20..][1] && it[22] == it[20..][2] && it[23] == it[20..][3];
    assert RunLabelled(it, 21, r, b) == Ret(REJECT);
    assert RunLabelled(it, 23, r, b) == Ret(ACCEPT);
  }

  lemma ProbeTargets()
    ensures forall q :: q < 20 ==>
            Target(ProbeItems(), q, "reject") == Some(20) && Target(ProbeItems(), q, "accept") == Some(22)
    ensures forall q :: Target(ProbeItems(), q, "") == Some(q + 1)
  {
    hide ProbeItems, LastLabel;
    ProbeLabels();
  }

  /** The clause for untagged frames starts at item 3, the one behind a tag at item 13. */
  predicate ClauseAt(p: nat, shift: nat) {
    (p == 3 && shift == 0) || (p == 13 && shift == 4)
  }

  lemma ProbeClauseCode(p: nat, shift: nat)
    requires ClauseAt(p, shift)
    ensures p + 7 <= 20
    ensures var it := ProbeItems();
            && |it| == 24
            && it[p] == Op(LoadAbsolute(23 + shift, 1))
            && it[p + 1] == Jump(JumpEqual, PROTO_UDP as bv32, "", "reject")
            && it[p + 2] == Op(LoadAbsolute(20 + shift, 2))
            && it[p + 3] == Jump(JumpBitsSet, 0x1fff, "reject", "")
            && it[p + 4] == Op(LoadMemShift(14 + shift))
            && it[p + 5] == Op(LoadIndirect(14 + shift, 2))
            && it[p + 6] == Jump(JumpEqual, 67, "accept", "reject")
            && (forall q :: q < 20 ==> Target(it, q, "reject") == Some(20) && Target(it, q, "accept") == Some(22))
            && forall q :: Target(it, q, "") == Some(q + 1)
  {
    ProbeLayout();
    ProbeTargets();
    var it := ProbeItems();
    hide ProbeItems, LastLabel, Target;
    assert it[p..p + 7] == ProbeClauseItems(shift);
    ClauseIs(it, p, ProbeClauseItems(shift));
  }

  lemma ClauseIs(it: seq<Item>, p: nat, items: seq<Item>)
    requires |items| == 7 && p + 7 <= |it| && it[p..p + 7] == items
    ensures it[p] == items[0] && it[p + 1] == items[1] && it[p + 2] == items[2] && it[p + 3] == items[3]
    ensures it[p + 4] == items[4] && it[p + 5] == items[5] && it[p + 6] == items[6]
  {
    assert it[p] == it[p..p + 7][0] && it[p + 1] == it[p..p + 7][1] && it[p + 2] == it[p..p + 7][2];
    assert it[p + 3] == it[p..p + 7][3] && it[p + 4] == it[p..p + 7][4] && it[p + 5] == it[p..p + 7][5];
    assert it[p + 6] == it[p..p + 7][6];
  }

  lemma LoadsByte(k: nat, r: Regs, b: Bytes)
    ensures Exec(LoadAbsolute(k, 1), r, b) == if k + 1 <= |b| then Some(Regs(b[k] as bv32, r.x)) else None
  {
  }

  lemma LoadsWord(k: nat, r: Regs, b: Bytes)
    ensures Exec(LoadAbsolute(k, 2), r, b) == if k + 2 <= |b| then Some(Regs(Be16(b, k) as bv32, r.x)) else None
  {
  }

  lemma LoadsIndirectWord(off: nat, r: Regs, b: Bytes)
    ensures var k := off + r.x;
            Exec(LoadIndirect(off, 2), r, b) == if k + 2 <= |b| then Some(Regs(Be16(b, k) as bv32, r.x)) else None
  {
  }

  lemma RunProbeSport(p: nat, shift: nat, r: Regs, b: Bytes)
    requires ClauseAt(p, shift)
    ensures var k := 14 + shift + r.x;
            ProbeEnds(p + 5, r, b, k + 2 <= |b| && Be16(b, k) == 67)
  {
    ProbeClauseCode(p, shift);
    hide ProbeItems, RunLabelled, LastLabel, Holds, Target, Be16, ClauseAt, Exec;
    var it := ProbeItems();
    var k := 14 + shift + r.x;
    LoadsIndirectWord(14 + shift, r, b);
    StepLoad(it, p + 5, LoadIndirect(14 + shift, 2), r, b);
    if k + 2 <= |b| {
      var r1 := Regs(Be16(b, k) as bv32, r.x);
      StepJump(it, p + 6, it[p + 6], 22, 20, r1, b);
      WordEquals(Be16(b, k), 67);
      RunProbeVerdicts(r1, b);
    }
  }

  lemma RunProbePorts(p: nat, shift: nat, r: Regs, b: Bytes)
    requires ClauseAt(p, shift)
    requires 24 + shift <= |b|
    ensures var k := 14 + shift + HeaderLen(b[14 + shift]);
            ProbeEnds(p + 4, r, b, k + 2 <= |b| && Be16(b, k) == 67)
  {
    ProbeClauseCode(p, shift);
    hide ProbeItems, RunLabelled, HeaderLen, Be16, ClauseAt;
    var x := HeaderLen(b[14 + shift]);
    StepLoad(ProbeItems(), p + 4, LoadMemShift(14 + shift), r, b);
    RunProbeSport(p, shift, Regs(r.a, x), b);
  }

  lemma RunProbeClause(p: nat, shift: nat, r: Regs, b: Bytes)
    requires ClauseAt(p, shift)
    ensures ProbeEnds(p, r, b, ProbeClause(b, shift))
  {
    ProbeClauseCode(p, shift);
    hide ProbeItems, RunLabelled, LastLabel, Be16, HeaderLen, FirstFragment, Holds, Target, Exec, ClauseAt;
    var it := ProbeItems();
    LoadsByte(23 + shift, r, b);
    StepLoad(it, p, LoadAbsolute(23 + shift, 1), r, b);
    if 24 + shift <= |b| {
      var r1 := Regs(b[23 + shift] as bv32, r.x);
      StepJump(it, p + 1, it[p + 1], p + 2, 20, r1, b);
      ByteEquals(b[23 + shift], PROTO_UDP);
      RunProbeVerdicts(r1, b);
      RunProbeFragment(p, shift, r1, b);
    }
  }

  lemma RunProbeFragment(p: nat, shift: nat, r: Regs, b: Bytes)
    requires ClauseAt(p, shift)
    requires 24 + shift <= |b|
    ensures var x := HeaderLen(b[14 + shift]);
            ProbeEnds(p + 2, r, b, FirstFragment(Be16(b, 20 + shift)) && 16 + shift + x <= |b|
                      && Be16(b, 14 + shift + x) == 67)
  {
    ProbeClauseCode(p, shift);
    hide ProbeItems, RunLabelled, LastLabel, Be16, HeaderLen, FirstFragment, Holds, Target, Exec, ClauseAt;
    var it := ProbeItems();
    LoadsWord(20 + shift, r, b);
    StepLoad(it, p + 2, LoadAbsolute(20 + shift, 2), r, b);
    var v := Be16(b, 20 + shift);
    FragmentMask(v);
    var r2 := Regs(v as bv32, r.x);
    StepJump(it, p + 3, it[p + 3], 20, p + 4, r2, b);
    RunProbeVerdicts(r2, b);
    RunProbePorts(p, shift, r2, b);
  }

  /** The labelled probe filter accepts exactly first-fragment IPv4/UDP from port 67,
      untagged or behind one tag. */
  lemma ProbeVerdict(r: Regs, b: Bytes)
    ensures ProbeEnds(0, r, b, ProbeWanted(b))
  {
    ProbeLayout();
    ProbeLabels();
    var it := ProbeItems();
    hide ProbeItems, RunLabelled, LastLabel, Be16, ProbeClause;
    StepLoad(it, 0, LoadAbsolute(12, 2), r, b);
    if |b| >= 14 {
      var r1 := Regs(Be16(b, 12) as bv32, r.x);
      StepJump(it, 1, it[1], 10, 2, r1, b);
      StepJump(it, 2, it[2], 3, 20, r1, b);
      RunProbeVerdicts(r1, b);
      RunProbeClause(3, 0, r1, b);
      StepLabel(it, 10, r1, b);
      StepLoad(it, 11, LoadAbsolute(16, 2), r1, b);
      if |b| >= 18 {
        var r2 := Regs(Be16(b, 16) as bv32, r.x);
        StepJump(it, 12, it[12], 13, 20, r2, b);
        RunProbeVerdicts(r2, b);
        RunProbeClause(13, 4, r2, b);
      }
    }
  }
}
