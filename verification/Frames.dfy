/** Ethernet frames around the mDNS packets, written by the announcer and read by the responder. */
module Frames {
  import opened Basics
  import opened Checksum

  const MDNS_MAC: Bytes := [0x33, 0x33, 0, 0, 0, 0xfb]
  const ETH_P_IPV6 := 0x86dd
  const LLC: Bytes := [0xaa, 0xaa, 0x03]
  const APPLE_OUI: Bytes := [0, 0x17, 0xf2]
  const AWDL_PROTO: Bytes := [0x08, 0]
  const AWDL_MAGIC: Bytes := [0x03, 0x04]
  const MAX_SNAP_LENGTH := 1500

  function Le16(n: nat): (b: Bytes)
    requires n < 0x1_0000
    ensures |b| == 2
  {
    [n % 256, n / 256]
  }

  function PlainHead(mac: Bytes): (b: Bytes)
    requires |mac| == 6
    ensures |b| == 14
  {
    MDNS_MAC + mac + Be16(ETH_P_IPV6)
  }

  function SnapHead(mac: Bytes, length: nat, seqno: nat): (b: Bytes)
    requires |mac| == 6 && length < 0x1_0000 && seqno < 0x1_0000
    ensures |b| == 30
  {
    MDNS_MAC + mac + Be16(length) + LLC + APPLE_OUI + AWDL_PROTO + AWDL_MAGIC
    + Le16(seqno) + [0, 0] + Be16(ETH_P_IPV6)
  }

  /** `wrap`: plain Ethernet II, or Apple's SNAP encapsulation when its body length fits 16 bits. */
  method Wrap(mac: Bytes, payload: Bytes, seqno: nat, snap: bool) returns (r: Option<Bytes>)
    requires |mac| == 6 && seqno < 0x1_0000
    ensures r.Some? <==> !snap || 16 + |payload| <= 0xffff
    ensures r.Some? ==> r.value == (if snap then SnapHead(mac, 16 + |payload|, seqno) else PlainHead(mac)) + payload
  {
    var out := MDNS_MAC;
    out := out + mac;
    if !snap {
      out := out + Be16(ETH_P_IPV6);
      return Some(out + payload);
    }
    if 16 + |payload| > 0xffff {
      return None;
    }
    out := out + Be16(16 + |payload|);
    out := out + LLC;
    out := out + APPLE_OUI;
    out := out + AWDL_PROTO;
    out := out + AWDL_MAGIC;
    out := out + Le16(seqno);
    out := out + [0, 0];
    out := out + Be16(ETH_P_IPV6);
    r := Some(out + payload);
  }

  /** Two bytes, big end first. */
  function Join(hi: int, lo: int): (n: int) { hi * 256 + lo }

  function Word(buf: Bytes, at: nat): (w: Option<nat>) {
    if at + 2 <= |buf| then Some(Join(buf[at], buf[at + 1])) else None
  }

  /** Where the IPv6 header starts, if this is a frame the responder reads. */
  function Ipv6Offset(frame: Bytes): (off: Option<nat>) {
    var etype :- Word(frame, 12);
    if etype == ETH_P_IPV6 then Some(14)
    else if etype <= MAX_SNAP_LENGTH && |frame| >= 17 && frame[14..17] == LLC then
      if |frame| < 22 || frame[17..20] != APPLE_OUI || frame[20..22] != AWDL_PROTO then None
      else
        var inner :- Word(frame, 28);
        if inner != ETH_P_IPV6 then None else Some(30)
    else None
  }

  /** The DNS message in the UDP packet at `off`. */
  function DnsAt(frame: Bytes, off: nat): (dns: Option<Bytes>) {
    if off + 40 > |frame| || frame[off + 6] != 17 then None
    else if off + 48 > |frame| then None
    else
      var port :- Word(frame, off + 42);
      if port != MDNS_PORT then None else Some(frame[off + 48..])
  }

  /** `mdns_payload`: the source MAC and the DNS bytes of an IPv6/UDP frame to port 5353. */
  function MdnsPayload(frame: Bytes): (r: Option<(Bytes, Bytes)>) {
    if |frame| < 12 then None
    else
      var off :- Ipv6Offset(frame);
      var dns :- DnsAt(frame, off);
      Some((frame[6..12], dns))
  }

  // ------------------------------------------------------------------ round trip

  lemma PacketFields(src: Bytes, dst: Bytes, dns: Bytes)
    requires |src| == 16 && |dst| == 16 && |dns| <= 65527
    ensures var p := Udp6Packet(src, dst, dns);
            && |p| == 48 + |dns| && p[6] == 17
            && Join(p[42], p[43]) == MDNS_PORT && p[48..] == dns
  {
    var ip := Ipv6Head(src, dst, 8 + |dns|);
    var udp := UdpSegment(UdpChecksum(src, dst, dns), dns);
    var p := ip + udp;
    assert ip[6] == 17;
    assert udp[2] == Be16(MDNS_PORT)[0] && udp[3] == Be16(MDNS_PORT)[1];
    assert p[42] == udp[2] && p[43] == udp[3];
    assert udp[8..] == dns;
    assert p[48..] == udp[8..];
  }

  lemma DnsAfterHead(head: Bytes, p: Bytes, dns: Bytes)
    requires |p| == 48 + |dns| && p[6] == 17 && Join(p[42], p[43]) == MDNS_PORT && p[48..] == dns
    ensures DnsAt(head + p, |head|) == Some(dns)
  {
    var f := head + p;
    assert f[|head| + 6] == p[6] && f[|head| + 42] == p[42] && f[|head| + 43] == p[43];
    assert f[|head| + 48..] == p[48..];
  }

  lemma PlainOffset(mac: Bytes, p: Bytes)
    requires |mac| == 6
    ensures var f := PlainHead(mac) + p;
            Ipv6Offset(f) == Some(14) && f[6..12] == mac
  {
    var head := PlainHead(mac);
    assert head[12] == 0x86 && head[13] == 0xdd;
    assert head[6..12] == mac;
    assert (head + p)[6..12] == head[6..12];
  }

  lemma SnapFields(mac: Bytes, length: nat, seqno: nat)
    requires |mac| == 6 && length < 0x1_0000 && seqno < 0x1_0000
    ensures var h := SnapHead(mac, length, seqno);
            && h[6..12] == mac && Join(h[12], h[13]) == length
            && h[14..17] == LLC && h[17..20] == APPLE_OUI && h[20..22] == AWDL_PROTO
            && h[20] == 8
            && Join(h[28], h[29]) == ETH_P_IPV6
  {
    var h := SnapHead(mac, length, seqno);
    assert h[12] == Be16(length)[0] && h[13] == Be16(length)[1];
    assert h[28] == Be16(ETH_P_IPV6)[0] && h[29] == Be16(ETH_P_IPV6)[1];
  }

  lemma SnapOffset(mac: Bytes, p: Bytes, seqno: nat)
    requires |mac| == 6 && 16 + |p| < 0x1_0000 && seqno < 0x1_0000
    ensures var f := SnapHead(mac, 16 + |p|, seqno) + p;
            && f[6..12] == mac && |f| >= 30 && f[20] == 8
            && Ipv6Offset(f) == (if 16 + |p| == ETH_P_IPV6 then Some(14)
                                 else if 16 + |p| <= MAX_SNAP_LENGTH then Some(30) else None)
  {
    var h := SnapHead(mac, 16 + |p|, seqno);
    var f := h + p;
    SnapFields(mac, 16 + |p|, seqno);
    assert f[6..12] == h[6..12] && f[14..17] == h[14..17];
    assert f[17..20] == h[17..20] && f[20..22] == h[20..22];
  }

  /** A plain frame around a packet is read back as its MAC and exactly its message. */
  lemma PlainRoundTrip(mac: Bytes, src: Bytes, dst: Bytes, dns: Bytes)
    requires |mac| == 6 && |src| == 16 && |dst| == 16 && |dns| <= 65527
    ensures MdnsPayload(PlainHead(mac) + Udp6Packet(src, dst, dns)) == Some((mac, dns))
  {
    var p := Udp6Packet(src, dst, dns);
    PacketFields(src, dst, dns);
    PlainOffset(mac, p);
    DnsAfterHead(PlainHead(mac), p, dns);
  }

  /**
   * A SNAP frame around a packet is read back as its MAC and exactly its message
   * if and only if its length field is at most 1500; otherwise it is not read at
   * all, even where the length looks like an EtherType.
   */
  lemma SnapRoundTrip(mac: Bytes, src: Bytes, dst: Bytes, dns: Bytes, seqno: nat)
    requires |mac| == 6 && |src| == 16 && |dst| == 16 && seqno < 0x1_0000
    requires 64 + |dns| <= 0xffff
    ensures var p := Udp6Packet(src, dst, dns);
            && |p| == 48 + |dns|
            && MdnsPayload(SnapHead(mac, 16 + |p|, seqno) + p)
               == if 16 + |p| <= MAX_SNAP_LENGTH then Some((mac, dns)) else None
  {
    var p := Udp6Packet(src, dst, dns);
    PacketFields(src, dst, dns);
    SnapOffset(mac, p, seqno);
    DnsAfterHead(SnapHead(mac, 16 + |p|, seqno), p, dns);
  }
}
