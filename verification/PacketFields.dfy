/** Where the fields of a packet and of its frame stand, byte by byte. */
module PacketFields {
  import opened Basics
  import opened Checksum
  import opened Frames

  lemma Be16Bytes(n: nat)
    requires n < 0x1_0000
    ensures Be16(n)[0] == n / 256 && Be16(n)[1] == n % 256
  {
  }

  /**
   * The IPv6 header (section 3 of RFC 8200): version 6, the length of what follows,
   * next header UDP, hop limit 255, then the source before the destination.
   */
  lemma Ipv6HeadFields(src: Bytes, dst: Bytes, length: nat)
    requires |src| == 16 && |dst| == 16 && length < 0x1_0000
    ensures var h := Ipv6Head(src, dst, length);
            && h[0] == 0x60 && h[1] == 0 && h[2] == 0 && h[3] == 0
            && Join(h[4], h[5]) == length && h[6] == 17 && h[7] == 255
            && h[8..24] == src && h[24..40] == dst
  {
    Be16Bytes(length);
    var b := Be16(length);
    var front: Bytes := [0x60, 0, 0, 0] + b + [17, 255];
    var h := Ipv6Head(src, dst, length);
    assert h == front + src + dst;
    assert front[0] == 0x60 && front[1] == 0 && front[2] == 0 && front[3] == 0;
    assert front[4] == b[0] && front[5] == b[1] && front[6] == 17 && front[7] == 255;
    assert forall i :: 0 <= i < 8 ==> h[i] == front[i];
  }

  /** The pseudo-header (section 8.1 of RFC 8200): source, destination, a four-byte length, zeros, next header. */
  lemma PseudoHeaderFields(src: Bytes, dst: Bytes, length: nat)
    requires |src| == 16 && |dst| == 16 && length < 0x1_0000
    ensures var h := PseudoHeader(src, dst, length);
            && h[0..16] == src && h[16..32] == dst
            && h[32] == 0 && h[33] == 0 && Join(h[34], h[35]) == length
            && h[36] == 0 && h[37] == 0 && h[38] == 0 && h[39] == 17
  {
    Be16Bytes(length);
    var b := Be16(length);
    var back: Bytes := [0, 0] + b + [0, 0, 0, 17];
    var h := PseudoHeader(src, dst, length);
    assert h == src + dst + back;
    assert back[0] == 0 && back[1] == 0 && back[2] == b[0] && back[3] == b[1];
    assert back[4] == 0 && back[5] == 0 && back[6] == 0 && back[7] == 17;
    assert forall i :: 0 <= i < 8 ==> h[32 + i] == back[i];
  }

  /** The UDP segment: both ports 5353, its own length, the checksum, the payload. */
  lemma SegmentFields(ck: nat, payload: Bytes)
    requires ck < 0x1_0000 && |payload| <= 65527
    ensures var u := UdpSegment(ck, payload);
            && |u| == 8 + |payload|
            && Join(u[0], u[1]) == 5353 && Join(u[2], u[3]) == 5353
            && Join(u[4], u[5]) == |u| && Join(u[6], u[7]) == ck && u[8..] == payload
  {
    Be16Bytes(5353);
    Be16Bytes(8 + |payload|);
    Be16Bytes(ck);
    var port, length, check := Be16(5353), Be16(8 + |payload|), Be16(ck);
    var head := port + port + length + check;
    var u := UdpSegment(ck, payload);
    assert u == head + payload;
    assert head[0] == port[0] && head[1] == port[1] && head[2] == port[0] && head[3] == port[1];
    assert head[4] == length[0] && head[5] == length[1] && head[6] == check[0] && head[7] == check[1];
    assert forall i :: 0 <= i < 8 ==> u[i] == head[i];
  }

  /** Both frames go to the mDNS group's address, from the given one. */
  lemma FrameAddresses(mac: Bytes, length: nat, seqno: nat)
    requires |mac| == 6 && length < 0x1_0000 && seqno < 0x1_0000
    ensures PlainHead(mac)[0..6] == SnapHead(mac, length, seqno)[0..6] == [0x33, 0x33, 0, 0, 0, 0xfb]
    ensures PlainHead(mac)[6..12] == SnapHead(mac, length, seqno)[6..12] == mac
    ensures PlainHead(mac)[12..] == [0x86, 0xdd]
  {
    Be16Bytes(0x86dd);
  }

  /** What follows the addresses in Apple's encapsulation, the sequence number little end first. */
  lemma SnapFields(mac: Bytes, length: nat, seqno: nat)
    requires |mac| == 6 && length < 0x1_0000 && seqno < 0x1_0000
    ensures SnapHead(mac, length, seqno)[12..] ==
            [length / 256, length % 256, 0xaa, 0xaa, 0x03, 0x00, 0x17, 0xf2, 0x08, 0x00, 0x03, 0x04,
             seqno % 256, seqno / 256, 0, 0, 0x86, 0xdd]
  {
    Be16Bytes(length);
    Be16Bytes(0x86dd);
    var tail: Bytes := Be16(length) + LLC + APPLE_OUI + AWDL_PROTO + AWDL_MAGIC + Le16(seqno) + [0, 0] + Be16(0x86dd);
    assert SnapHead(mac, length, seqno) == (MDNS_MAC + mac) + tail;
  }
}
