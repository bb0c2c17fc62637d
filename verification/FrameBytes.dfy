/** The frames the filters keep and the parsers read, octet by octet and in numbers: nothing
    here rests on the machine's own loads, masks and constants. */
module FrameBytes {
  import opened BpfMachine
  import opened Frames
  import opened FilterMeaning

  /** The 16-bit number at i, most significant octet first. */
  function Two(b: Bytes, i: nat): nat
    requires i + 2 <= |b|
  {
    256 * (b[i] as nat) + (b[i + 1] as nat)
  }

  /** The octets of the IPv4 header that starts at i: four times the low half of its first. */
  function HeaderOctets(b: Bytes, i: nat): nat
    requires i < |b|
  {
    4 * ((b[i] as nat) % 16)
  }

  // ---- Loads ----

  lemma LowNibble(x: bv8)
    ensures (x & 0x0f) as nat == (x as nat) % 16
  {
  }

  lemma NibbleOf(version: bv8, n: bv8)
    requires version < 16 && n < 16
    ensures ((version << 4) | n) & 0x0f == n
  {
  }

  /** The version in the high half of the octet plays no part. */
  lemma HeaderLenExactly(version: bv8, n: bv8)
    requires version < 16 && n < 16
    ensures HeaderLen((version << 4) | n) == 4 * (n as nat)
  {
    NibbleOf(version, n);
  }

  lemma HeaderLenOf(x: bv8)
    ensures HeaderLen(x) == 4 * ((x as nat) % 16)
  {
    LowNibble(x);
  }

  lemma HeaderLenAt(b: Bytes, i: nat)
    requires i < |b|
    ensures HeaderLen(b[i]) == HeaderOctets(b, i)
  {
    HeaderLenOf(b[i]);
  }

  lemma JoinedIs(x: bv8, y: bv8)
    ensures (((x as bv16) << 8) | (y as bv16)) as nat == 256 * (x as nat) + (y as nat)
  {
  }

  lemma Be16Exactly(b: Bytes, i: nat)
    requires i + 2 <= |b|
    ensures Be16(b, i) as nat == Two(b, i)
  {
    JoinedIs(b[i], b[i + 1]);
  }

  lemma ZeroLowBits(b: Bytes, i: nat)
    requires i + 2 <= |b|
    ensures Be16(b, i) & 0x1fff == 0 <==> b[i] & 0x1f == 0 && b[i + 1] == 0
  {
  }

  lemma LowFive(x: bv8)
    ensures (x & 0x1f) as nat == (x as nat) % 32
  {
  }

  lemma MultipleOf8192(x: nat, y: nat)
    requires y < 256
    ensures (256 * x + y) % 0x2000 == 0 <==> x % 32 == 0 && y == 0
  {
    RemainderIs(256 * x + y, x / 32, 256 * (x % 32) + y, 0x2000);
  }

  lemma RemainderIs(v: nat, q: nat, r: nat, m: nat)
    requires v == m * q + r && r < m
    ensures v % m == r
  {
    if v / m < q { assert m * (v / m) <= m * (q - 1); }
    if v / m > q { assert m * (v / m) >= m * (q + 1); }
  }

  /** The fragment offset is the low 13 bits. */
  lemma FirstFragmentExactly(b: Bytes, i: nat)
    requires i + 2 <= |b|
    ensures FirstFragment(Be16(b, i)) <==> Two(b, i) % 0x2000 == 0
  {
    hide Be16;
    ZeroLowBits(b, i);
    LowFive(b[i]);
    MultipleOf8192(b[i] as nat, b[i + 1] as nat);
  }

  // ---- The steady filter ----

  /** The payload of the UDP datagram at i starts 47 35 68. */
  ghost predicate Announces(b: Bytes, i: nat) {
    i + 11 <= |b| && b[i + 8] == 0x47 && b[i + 9] == 0x35 && b[i + 10] == 0x68
  }

  /** The UDP datagram at i: DHCP, PTP or, on a Green-GO interface, an announce; port 5810 as
      destination decides before source port 67. */
  ghost predicate WantedDatagram(greengo: bool, b: Bytes, i: nat) {
    && i + 4 <= |b|
    && (|| Two(b, i + 2) in {67, 319, 320}
        || (Two(b, i) == 67 && !(greengo && Two(b, i + 2) == 5810))
        || (greengo && (Two(b, i) == 5810 || Two(b, i + 2) == 5810) && Announces(b, i)))
  }

  ghost predicate SteadyKeeps(greengo: bool, b: Bytes) {
    && |b| >= 14
    && (|| Two(b, 12) in {0x8100, 0x88cc, 0x88f7, 0x0806}
        || b[..6] == [0x01, 0x00, 0x0c, 0xcc, 0xcc, 0xcc]
        || b[..6] == [0x01, 0x80, 0xc2, 0x00, 0x00, 0x00]
        || (&& Two(b, 12) == 0x0800 && |b| >= 24
            && (|| b[23] == 2
                || (b[23] == 17 && Two(b, 20) % 0x2000 == 0
                    && WantedDatagram(greengo, b, 14 + HeaderOctets(b, 14))))))
  }

  /** The steady filter keeps VLAN-tagged frames, LLDP, PTP, ARP, CDP, BPDUs, IGMP and the
      first fragments of wanted UDP datagrams, and nothing else. */
  lemma SteadyExactly(greengo: bool, b: Bytes)
    ensures Wanted(greengo, b) <==> SteadyKeeps(greengo, b)
  {
    hide WantedIpv4, HeaderOctets, HeaderLen, FirstFragment, Be16, Be32, Two, WantedDatagram, IsGroupMac;
    if |b| >= 14 {
      EtherTypeIs(b, 12);
      GroupMacOctets();
      GroupMacIs(b, 0x01000ccc, 0xcccc, [0x01, 0x00, 0x0c, 0xcc, 0xcc, 0xcc]);
      GroupMacIs(b, 0x0180c200, 0x0000, [0x01, 0x80, 0xc2, 0x00, 0x00, 0x00]);
      if |b| >= 24 { Ipv4Is(greengo, b); } else { ShortIpv4(greengo, b); }
    }
  }

  lemma EtherTypeIs(b: Bytes, i: nat)
    requires i + 2 <= |b|
    ensures Be16(b, i) == ETHERTYPE_IPV4 <==> Two(b, i) == 0x0800
    ensures Be16(b, i) == ETHERTYPE_VLAN <==> Two(b, i) == 0x8100
    ensures Be16(b, i) == ETHERTYPE_QINQ <==> Two(b, i) == 0x88a8
    ensures Be16(b, i) in {ETHERTYPE_VLAN, ETHERTYPE_LLDP, ETHERTYPE_PTP, ETHERTYPE_ARP}
            <==> Two(b, i) in {0x8100, 0x88cc, 0x88f7, 0x0806}
  {
    hide Be16, Two;
    Be16Exactly(b, i);
  }

  lemma GroupMacOctets()
    ensures Be32([0x01, 0x00, 0x0c, 0xcc, 0xcc, 0xcc], 0) == 0x01000ccc
    ensures Be16([0x01, 0x00, 0x0c, 0xcc, 0xcc, 0xcc], 4) == 0xcccc
    ensures Be32([0x01, 0x80, 0xc2, 0x00, 0x00, 0x00], 0) == 0x0180c200
    ensures Be16([0x01, 0x80, 0xc2, 0x00, 0x00, 0x00], 4) == 0x0000
  {
  }

  lemma GroupMacIs(b: Bytes, hi: bv32, lo: bv16, mac: Bytes)
    requires |b| >= 14 && |mac| == 6 && hi == Be32(mac, 0) && lo == Be16(mac, 4)
    ensures IsGroupMac(b, hi, lo) <==> b[..6] == mac
  {
    SameFour(b, mac);
    SameTwo(b, mac);
    hide Be16, Be32;
    assert b[..6] == mac <==> (forall k :: 0 <= k < 6 ==> b[k] == mac[k]);
  }

  lemma SameFour(b: Bytes, mac: Bytes)
    requires |b| >= 6 && |mac| == 6
    ensures Be32(b, 0) == Be32(mac, 0) <==> b[0] == mac[0] && b[1] == mac[1] && b[2] == mac[2] && b[3] == mac[3]
  {
  }

  lemma SameTwo(b: Bytes, mac: Bytes)
    requires |b| >= 6 && |mac| == 6
    ensures Be16(b, 4) == Be16(mac, 4) <==> b[4] == mac[4] && b[5] == mac[5]
  {
  }

  lemma ShortIpv4(greengo: bool, b: Bytes)
    requires |b| < 24
    ensures !WantedIpv4(greengo, b)
  {
  }

  lemma Ipv4Is(greengo: bool, b: Bytes)
    requires |b| >= 24
    ensures WantedIpv4(greengo, b)
            <==> || b[23] == 2
                 || (b[23] == 17 && Two(b, 20) % 0x2000 == 0
                     && WantedDatagram(greengo, b, 14 + HeaderOctets(b, 14)))
  {
    hide HeaderOctets, HeaderLen, FirstFragment, Be16, Two, WantedDatagram, WantedUdp;
    FirstFragmentExactly(b, 20);
    HeaderLenAt(b, 14);
    DatagramIs(greengo, b, HeaderOctets(b, 14));
  }

  lemma DatagramIs(greengo: bool, b: Bytes, x: nat)
    ensures WantedUdp(greengo, b, x) <==> WantedDatagram(greengo, b, 14 + x)
  {
    hide Be16, Two;
    if x + 18 <= |b| {
      Be16Exactly(b, x + 14);
      Be16Exactly(b, x + 16);
      AnnouncesIs(b, x);
      hide IsAnnounce, Announces;
    }
  }

  lemma AnnouncesIs(b: Bytes, x: nat)
    ensures IsAnnounce(b, x) <==> Announces(b, 14 + x)
  {
  }

  // ---- The onboarding filter ----

  /** A first UDP fragment from port 67, its IPv4 header at i. */
  ghost predicate FromServer(b: Bytes, i: nat) {
    && i + 10 <= |b| && b[i + 9] == 17 && Two(b, i + 6) % 0x2000 == 0
    && var u := i + HeaderOctets(b, i); u + 2 <= |b| && Two(b, u) == 67
  }

  /** The onboarding filter keeps the first fragments of UDP from port 67, untagged or behind
      one tag, and nothing else. */
  lemma ProbeExactly(b: Bytes)
    ensures ProbeWanted(b)
            <==> || (|b| >= 14 && Two(b, 12) == 0x0800 && FromServer(b, 14))
                 || (|b| >= 18 && Two(b, 12) == 0x8100 && Two(b, 16) == 0x0800 && FromServer(b, 18))
  {
    hide Be16, Two, ProbeClause, FromServer;
    if |b| >= 14 {
      EtherTypeIs(b, 12);
      FromServerIs(b, 0);
      FromServerIs(b, 4);
      if |b| >= 18 { EtherTypeIs(b, 16); }
    }
  }

  lemma FromServerIs(b: Bytes, shift: nat)
    ensures ProbeClause(b, shift) <==> FromServer(b, 14 + shift)
  {
    hide Be16, Two, HeaderLen, HeaderOctets, FirstFragment;
    if 24 + shift <= |b| {
      FirstFragmentExactly(b, 20 + shift);
      HeaderLenAt(b, 14 + shift);
      var u := 14 + shift + HeaderOctets(b, 14 + shift);
      if u + 2 <= |b| { Be16Exactly(b, u); }
    }
  }

  // ---- The parsers ----

  /** An IPv4 header of at least 20 octets at i, then a whole UDP header. */
  ghost predicate UdpAt(b: Bytes, i: nat) {
    && i + 20 <= |b| && HeaderOctets(b, i) >= 20 && b[i + 9] == 17 && i + HeaderOctets(b, i) + 8 <= |b|
  }

  /** The ports of the UDP header after the IPv4 header at i, and where its payload starts. */
  ghost predicate PortsAt(b: Bytes, i: nat, u: UdpPorts) {
    && UdpAt(b, i)
    && var h := i + HeaderOctets(b, i);
       u.sport as nat == Two(b, h) && u.dport as nat == Two(b, h + 2) && u.payloadOff == h + 8
  }

  /** A frame's ports parse exactly when it is IPv4 and UDP, untagged or behind one tag, with
      both headers whole. */
  lemma UdpFrameExactly(b: Bytes)
    ensures ParseUdpFrame(b).Some?
            <==> || (|b| >= 14 && Two(b, 12) == 0x0800 && UdpAt(b, 14))
                 || (|b| >= 18 && Two(b, 12) == 0x8100 && Two(b, 16) == 0x0800 && UdpAt(b, 18))
    ensures ParseUdpFrame(b).Some? ==> PortsAt(b, if Two(b, 12) == 0x8100 then 18 else 14, ParseUdpFrame(b).value)
  {
    hide Be16, Two, UdpAt, ParseIpv4, PortsAt, ParseUdp;
    if |b| >= 14 {
      EtherTypeIs(b, 12);
      HeadersAre(b, 14);
      HeadersAre(b, 18);
      if |b| >= 18 { EtherTypeIs(b, 16); }
    }
  }

  lemma HeadersAre(b: Bytes, i: nat)
    ensures UdpAt(b, i) <==> var ip := ParseIpv4(b, i);
                             ip.Some? && ip.value.proto == 17 && ParseUdp(b, ip.value.l4Off).Some?
    ensures UdpAt(b, i) ==> PortsAt(b, i, ParseUdp(b, ParseIpv4(b, i).value.l4Off).value)
  {
    hide Be16, Two, HeaderLen, HeaderOctets;
    if i + 20 <= |b| {
      HeaderLenAt(b, i);
      var h := i + HeaderOctets(b, i);
      if h + 8 <= |b| {
        Be16Exactly(b, h);
        Be16Exactly(b, h + 2);
      }
    }
  }

  /** The ethertype, payload offset and VLAN: a tag is skipped, a second one refused. */
  lemma EtherExactly(b: Bytes)
    ensures ParseEther(b).Some?
            <==> |b| >= 14 && (Two(b, 12) == 0x8100 ==> |b| >= 18 && Two(b, 16) !in {0x8100, 0x88a8})
    ensures ParseEther(b).Some? ==>
              var e, i := ParseEther(b).value, if Two(b, 12) == 0x8100 then 16 else 12;
              && e.etherType as nat == Two(b, i) && e.payloadOff == i + 2
              && e.vlanID as nat == if i == 16 then Two(b, 14) % 0x1000 else 0
  {
    if |b| >= 14 {
      EtherTypeIs(b, 12);
      Be16Exactly(b, 12);
      if |b| >= 18 {
        EtherTypeIs(b, 16);
        Be16Exactly(b, 16);
        VlanIs(b);
      }
    }
    hide Be16, Two;
  }

  lemma VlanBits(x: bv8, y: bv8)
    ensures ((((x as bv16) << 8) | (y as bv16)) & 0x0fff) as nat == 256 * ((x & 0x0f) as nat) + (y as nat)
  {
  }

  lemma VlanLoad(b: Bytes)
    requires |b| >= 16
    ensures (Be16(b, 14) & 0x0fff) as nat == 256 * ((b[14] & 0x0f) as nat) + (b[15] as nat)
  {
    VlanBits(b[14], b[15]);
  }

  lemma VlanIs(b: Bytes)
    requires |b| >= 16
    ensures (Be16(b, 14) & 0x0fff) as nat == Two(b, 14) % 0x1000
  {
    hide Be16;
    VlanLoad(b);
    LowNibble(b[14]);
    VlanNumber(b[14] as nat, b[15] as nat);
  }

  lemma VlanNumber(x: nat, y: nat)
    requires y < 256
    ensures (256 * x + y) % 0x1000 == 256 * (x % 16) + y
  {
    RemainderIs(256 * x + y, x / 16, 256 * (x % 16) + y, 0x1000);
  }
}
