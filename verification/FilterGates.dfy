/** The combined filter loses nothing its detectors parse. Each gate is the
    header test with which a detector's Consume begins. */
module FilterGates {
  import opened BpfMachine
  import opened Frames
  import opened FilterMeaning

  const MAC_CDP: Bytes := [0x01, 0x00, 0x0c, 0xcc, 0xcc, 0xcc]
  const MAC_STP: Bytes := [0x01, 0x80, 0xc2, 0x00, 0x00, 0x00]

  predicate DstMac(b: Bytes, mac: Bytes)
    requires |mac| == 6
  {
    |b| >= 6 && b[..6] == mac
  }

  predicate Tagged(b: Bytes) {
    |b| >= 14 && Be16(b, 12) == ETHERTYPE_VLAN
  }

  /** Accepted whatever their ports: tagged frames and the two control groups. */
  predicate AlwaysKept(b: Bytes) {
    Tagged(b) || (|b| >= 14 && (DstMac(b, MAC_CDP) || DstMac(b, MAC_STP)))
  }

  /** A frame whose UDP ports parse is accepted exactly when it is always kept, or is a
      first fragment with a wanted port: 67, 319 or 320, or 5810 with the announce
      subtype. Port 5810 as destination is decided before source port 67. */
  lemma UdpFrameKept(greengo: bool, b: Bytes)
    requires ParseUdpFrame(b).Some?
    ensures var u := ParseUdpFrame(b).value;
            Wanted(greengo, b) <==>
            || AlwaysKept(b)
            || (&& FirstFragment(Be16(b, 20))
                && (|| u.dport in {67, 319, 320}
                    || (u.sport == 67 && !(greengo && u.dport == GGO_BUS_PORT))
                    || (greengo && GGO_BUS_PORT in {u.sport, u.dport} && IsAnnounce(b, u.payloadOff - 22))))
  {
    hide HeaderLen, FirstFragment;
  }

  // ---- The detectors' gates ----

  const DHCP_OPTS_OFF := 240

  predicate RogueDhcpGate(b: Bytes) {
    var u := ParseUdpFrame(b);
    u.Some? && u.value.sport == 67 && u.value.payloadOff + DHCP_OPTS_OFF <= |b|
  }

  predicate DuplicateIpGate(b: Bytes) {
    var u := ParseUdpFrame(b);
    u.Some? && u.value.dport == 67 && u.value.payloadOff + DHCP_OPTS_OFF <= |b|
  }

  /** ptpPayload finds a message of at least 61 bytes of type Announce. */
  predicate PtpGate(b: Bytes) {
    var e := ParseEther(b);
    e.Some? &&
    if e.value.etherType == ETHERTYPE_PTP then PtpAnnounce(b, e.value.payloadOff)
    else
      var u := ParseUdpFrame(b);
      u.Some? && u.value.dport in {319, 320} && PtpAnnounce(b, u.value.payloadOff)
  }

  predicate PtpAnnounce(b: Bytes, off: nat) {
    off + 61 <= |b| && b[off] & 0x0f == 0x0b
  }

  predicate IgmpGate(b: Bytes) {
    var e := ParseEther(b);
    e.Some? && e.value.etherType == ETHERTYPE_IPV4 &&
    var ip := ParseIpv4(b, e.value.payloadOff);
    ip.Some? && ip.value.proto == PROTO_IGMP && ip.value.l4Off < |b| && b[ip.value.l4Off] == 0x11
  }

  predicate NeighborGate(b: Bytes) {
    var e := ParseEther(b);
    e.Some? && (e.value.etherType == ETHERTYPE_LLDP || DstMac(b, MAC_CDP))
  }

  predicate StpGate(b: Bytes) {
    DstMac(b, MAC_STP) && ETH_HDR_LEN + 3 + 4 < |b|
  }

  predicate ArpGate(b: Bytes) {
    var e := ParseEther(b);
    e.Some? && e.value.etherType == ETHERTYPE_ARP && e.value.payloadOff + 28 <= |b|
  }

  predicate GreengoConfigGate(b: Bytes) {
    var u := ParseUdpFrame(b);
    u.Some? && GGO_BUS_PORT in {u.value.sport, u.value.dport} &&
    var p := u.value.payloadOff;
    p + 14 <= |b| && b[p] == 0x47 && b[p + 1] == 0x35 && b[p + 2] == 0x68 && b[p + 3] & 0x80 != 0
  }

  /** The frame carries a later IPv4 fragment, whose port fields are payload bytes. */
  predicate LaterFragment(b: Bytes) {
    |b| >= 22 && Be16(b, 12) == ETHERTYPE_IPV4 && !FirstFragment(Be16(b, 20))
  }

  /** Control traffic is never filtered out. */
  lemma ControlFramesKept(greengo: bool, b: Bytes)
    requires IgmpGate(b) || NeighborGate(b) || StpGate(b) || ArpGate(b)
    ensures Wanted(greengo, b)
  {
    hide HeaderLen, FirstFragment;
  }

  /** PTP, DHCPDECLINE and Green-GO announces are filtered out only as later fragments, and
      not even then when always kept. */
  lemma PortFramesKept(greengo: bool, b: Bytes)
    requires PtpGate(b) || DuplicateIpGate(b) || (greengo && GreengoConfigGate(b))
    ensures Wanted(greengo, b) <==> AlwaysKept(b) || !LaterFragment(b)
  {
    hide HeaderLen, FirstFragment;
  }

  /** A rogue server's answer that is not always kept is filtered out exactly when it is a
      later fragment, or goes to port 5810 on a Green-GO interface without being an announce. */
  lemma RogueFramesKept(greengo: bool, b: Bytes)
    requires RogueDhcpGate(b)
    ensures var u := ParseUdpFrame(b).value;
            Wanted(greengo, b) <==>
            || AlwaysKept(b)
            || (!LaterFragment(b) && !(greengo && u.dport == GGO_BUS_PORT && !IsAnnounce(b, u.payloadOff - 22)))
  {
    hide HeaderLen, FirstFragment;
  }

  /** On frames whose headers parse, the probe filter accepts exactly the first
      fragments from port 67; a single tag hides neither. */
  lemma ProbeMatchesParsers(b: Bytes)
    requires ParseUdpFrame(b).Some?
    ensures ProbeWanted(b) <==>
            && ParseUdpFrame(b).value.sport == 67
            && FirstFragment(Be16(b, ParseEther(b).value.payloadOff + 6))
  {
    hide HeaderLen, Be16, FirstFragment;
  }

  /** Conversely everything the probe filter accepts is an IPv4/UDP frame by its
      ethertype and protocol bytes. */
  lemma ProbeAcceptsOnlyUdp(b: Bytes)
    requires ProbeWanted(b)
    ensures ParseEther(b).Some? && ParseEther(b).value.etherType == ETHERTYPE_IPV4
    ensures var off := ParseEther(b).value.payloadOff; off + 10 <= |b| && b[off + 9] == PROTO_UDP
  {
    hide HeaderLen, FirstFragment;
  }
}
