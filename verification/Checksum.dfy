/** The Internet checksum (section 1 of RFC 1071) and the UDP packet that carries it. */
module Checksum {
  import opened Basics

  /** The sum of the big-endian 16-bit words; an odd last byte is padded with zero. */
  function WordSum(data: Bytes): (n: nat) {
    if data == [] then 0
    else if |data| == 1 then data[0] * 256
    else data[0] * 256 + data[1] + WordSum(data[2..])
  }

  /** Add the carries back in until the sum fits 16 bits. */
  function Fold(n: nat): (r: nat)
    ensures r < 0x1_0000
  {
    if n < 0x1_0000 then n else Fold(n % 0x1_0000 + n / 0x1_0000)
  }

  function Csum(data: Bytes): (c: nat)
    ensures c < 0x1_0000
  {
    0xffff - Fold(WordSum(data))
  }

  method Csum16(data: Bytes) returns (c: nat)
    ensures c == Csum(data)
  {
    var sum: nat := 0;
    var i := 0;
    assert data[0..] == data;
    while i + 1 < |data|
      invariant 0 <= i <= |data|
      invariant sum + WordSum(data[i..]) == WordSum(data)
    {
      assert data[i..][2..] == data[i + 2..];
      sum := sum + (data[i] as int) * 256 + data[i + 1];
      i := i + 2;
    }
    if i < |data| {
      sum := sum + (data[i] as int) * 256;
    }
    ghost var total := sum;
    while sum / 0x1_0000 != 0
      invariant Fold(sum) == Fold(total)
      decreases sum
    {
      sum := sum % 0x1_0000 + sum / 0x1_0000;
    }
    c := 0xffff - sum;
  }

  lemma FoldStep(n: nat)
    requires n >= 0x1_0000
    ensures var m := n % 0x1_0000 + n / 0x1_0000;
            0 < m < n && m % 0xffff == n % 0xffff
  {
    var hi, lo := n / 0x1_0000, n % 0x1_0000;
    assert n == hi * 0xffff + (lo + hi);
    ModShift(lo + hi, hi);
  }

  lemma {:induction false} ModShift(m: nat, k: nat)
    ensures (k * 0xffff + m) % 0xffff == m % 0xffff
  {
    if k > 0 {
      ModShift(m, k - 1);
      assert k * 0xffff + m == ((k - 1) * 0xffff + m) + 0xffff;
    }
  }

  /**
   * Folding keeps the sum modulo 65535, and tells zero from the multiples of
   * 65535: only the sum zero folds to zero.
   */
  lemma {:induction false} FoldExactly(n: nat)
    ensures Fold(n) == if n == 0 then 0 else if n % 0xffff == 0 then 0xffff else n % 0xffff
    decreases n
  {
    if n >= 0x1_0000 {
      FoldStep(n);
      FoldExactly(n % 0x1_0000 + n / 0x1_0000);
    }
  }

  lemma {:induction false} WordSumAppend(a: Bytes, b: Bytes)
    requires |a| % 2 == 0
    ensures WordSum(a + b) == WordSum(a) + WordSum(b)
  {
    if a == [] {
      assert a + b == b;
    } else {
      assert (a + b)[2..] == a[2..] + b;
      WordSumAppend(a[2..], b);
    }
  }

  // ------------------------------------------------------------------ the packet

  function Be16(n: nat): (b: Bytes)
    requires n < 0x1_0000
    ensures |b| == 2 && WordSum(b) == n
  {
    var b := [n / 256, n % 256];
    assert b[2..] == [];
    b
  }

  /** The low two bytes of a 32-bit length that fits 16 bits. */
  function Be32(n: nat): (b: Bytes)
    requires n < 0x1_0000
    ensures |b| == 4
  {
    [0, 0] + Be16(n)
  }

  const MDNS_PORT := 5353

  function PseudoHeader(src: Bytes, dst: Bytes, length: nat): (b: Bytes)
    requires |src| == 16 && |dst| == 16 && length < 0x1_0000
    ensures |b| == 40
  {
    src + dst + Be32(length) + [0, 0, 0, 17]
  }

  /** Source port, destination port and length: what stands before the checksum. */
  function UdpHead(length: nat): (b: Bytes)
    requires length < 0x1_0000
    ensures |b| == 6
  {
    Be16(MDNS_PORT) + Be16(MDNS_PORT) + Be16(length)
  }

  function UdpSegment(ck: nat, payload: Bytes): (b: Bytes)
    requires ck < 0x1_0000 && |payload| <= 65527
  {
    UdpHead(8 + |payload|) + Be16(ck) + payload
  }

  function Summed(src: Bytes, dst: Bytes, ck: nat, payload: Bytes): (b: Bytes)
    requires |src| == 16 && |dst| == 16 && ck < 0x1_0000 && |payload| <= 65527
  {
    PseudoHeader(src, dst, 8 + |payload|) + UdpSegment(ck, payload)
  }

  function UdpChecksum(src: Bytes, dst: Bytes, payload: Bytes): (ck: nat)
    requires |src| == 16 && |dst| == 16 && |payload| <= 65527
    ensures ck < 0x1_0000
  {
    var ck := Csum(Summed(src, dst, 0, payload));
    if ck == 0 then 0xffff else ck
  }

  function Ipv6Head(src: Bytes, dst: Bytes, length: nat): (b: Bytes)
    requires |src| == 16 && |dst| == 16 && length < 0x1_0000
    ensures |b| == 40
  {
    [0x60, 0, 0, 0] + Be16(length) + [17, 255] + src + dst
  }

  function Udp6Packet(src: Bytes, dst: Bytes, payload: Bytes): (p: Bytes)
    requires |src| == 16 && |dst| == 16 && |payload| <= 65527
  {
    Ipv6Head(src, dst, 8 + |payload|) + UdpSegment(UdpChecksum(src, dst, payload), payload)
  }

  /** `udp6`: refuses a payload whose UDP length does not fit 16 bits. */
  method Udp6(src: Bytes, dst: Bytes, payload: Bytes) returns (r: Option<Bytes>)
    requires |src| == 16 && |dst| == 16
    ensures r.Some? <==> |payload| <= 65527
    ensures r.Some? ==> r.value == Udp6Packet(src, dst, payload)
  {
    if 8 + |payload| > 0xffff {
      return None;
    }
    var length := 8 + |payload|;
    var sum := PseudoHeader(src, dst, length);
    var segment := UdpHead(length);
    segment := segment + Be16(0);
    segment := segment + payload;
    sum := sum + segment;
    var ck := Csum16(sum);
    if ck == 0 {
      ck := 0xffff;
    }
    var out := UdpHead(length);
    out := out + Be16(ck);
    out := out + payload;
    r := Some(Ipv6Head(src, dst, length) + out);
  }

  lemma SummedWords(src: Bytes, dst: Bytes, ck: nat, payload: Bytes)
    requires |src| == 16 && |dst| == 16 && ck < 0x1_0000 && |payload| <= 65527
    ensures WordSum(Summed(src, dst, ck, payload)) ==
            WordSum(PseudoHeader(src, dst, 8 + |payload|)) + WordSum(UdpHead(8 + |payload|)) + ck + WordSum(payload)
  {
    var head := UdpHead(8 + |payload|);
    WordSumAppend(PseudoHeader(src, dst, 8 + |payload|), UdpSegment(ck, payload));
    WordSumAppend(head + Be16(ck), payload);
    WordSumAppend(head, Be16(ck));
  }

  lemma PseudoHeaderIsNotZero(src: Bytes, dst: Bytes, length: nat)
    requires |src| == 16 && |dst| == 16 && length < 0x1_0000
    ensures WordSum(PseudoHeader(src, dst, length)) > 0
  {
    var protocol: Bytes := [0, 0, 0, 17];
    WordSumAppend(src + dst + Be32(length), protocol);
    assert protocol[2..] == [0, 17];
    assert protocol[2..][2..] == [];
  }

  /**
   * The receiver's check: summing the pseudo-header and the emitted segment,
   * checksum included, gives zero, also where a zero checksum was sent as all
   * ones (section 8.1 of RFC 8200).
   */
  lemma ChecksumVerifies(src: Bytes, dst: Bytes, payload: Bytes)
    requires |src| == 16 && |dst| == 16 && |payload| <= 65527
    ensures Csum(Summed(src, dst, UdpChecksum(src, dst, payload), payload)) == 0
    ensures UdpChecksum(src, dst, payload) != 0
  {
    var ck := UdpChecksum(src, dst, payload);
    SummedWords(src, dst, 0, payload);
    SummedWords(src, dst, ck, payload);
    PseudoHeaderIsNotZero(src, dst, 8 + |payload|);
    var s0 := WordSum(Summed(src, dst, 0, payload));
    FoldExactly(s0);
    FoldExactly(s0 + ck);
    Complement(s0, ck);
  }

  lemma Complement(s0: nat, ck: nat)
    requires s0 > 0
    requires var f := if s0 % 0xffff == 0 then 0xffff else s0 % 0xffff;
             ck == if f == 0xffff then 0xffff else 0xffff - f
    ensures (s0 + ck) % 0xffff == 0
  {
  }
}
