/** How far the raw DHCP client keeps to RFC 791 and RFC 768. */
module DhcpStandards {
  import opened Bytes
  import opened OnesComplement
  import opened DhcpPacket
  import opened DhcpReceive

  // ---------- The datagram of the standards, which knows no host byte order ----------

  /** The header of section 3.1 of RFC 791: a first byte, no options and no fragments, time to live
      64, protocol 17. */
  function StandardIpHeader(first: byte, len: word, check: word, saddr: address, daddr: address): (h: seq<byte>)
    ensures |h| == 20
  {
    [first, 0, len / 256, len % 256, 0, 0, 0, 0, 64, 17, check / 256, check % 256] + saddr + daddr
  }

  /** Version 4, header length 5. */
  const FIRST: byte := 0x45

  function StandardUdpHeader(sport: word, dport: word, len: word, check: word): (h: seq<byte>)
    ensures |h| == 8
  {
    [sport / 256, sport % 256, dport / 256, dport % 256, len / 256, len % 256, check / 256, check % 256]
  }

  /** What RFC 768 sums: the pseudo-header, the UDP header without checksum, the data. */
  function UdpText(saddr: address, sport: word, daddr: address, dport: word, data: seq<byte>): (s: seq<byte>)
    requires |data| <= 65535 - HEADERS
    ensures |s| == 20 + |data|
  {
    var len := 8 + |data|;
    saddr + daddr + [0, 17, len / 256, len % 256] + (StandardUdpHeader(sport, dport, len, 0) + data)
  }

  /** The UDP checksum as computed. */
  function Computed(saddr: address, sport: word, daddr: address, dport: word, data: seq<byte>): word
    requires |data| <= 65535 - HEADERS
  {
    Checksum(Big, UdpText(saddr, sport, daddr, dport, data))
  }

  /** "If the computed checksum is zero, it is transmitted as all ones." */
  function Transmitted(computed: word): word {
    if computed == 0 then 65535 else computed
  }

  /** The headers around the data; `first` is 0x45 in a datagram of the standards. */
  function Packet(first: byte, saddr: address, sport: word, daddr: address, dport: word, udpCheck: word,
                  data: seq<byte>): seq<byte>
    requires |data| <= 65535 - HEADERS
  {
    var len := 8 + |data|;
    var ipCheck := Checksum(Big, StandardIpHeader(first, 20 + len, 0, saddr, daddr));
    StandardIpHeader(first, 20 + len, ipCheck, saddr, daddr) + StandardUdpHeader(sport, dport, len, udpCheck) + data
  }

  function StandardDatagram(saddr: address, sport: word, daddr: address, dport: word, data: seq<byte>): seq<byte>
    requires |data| <= 65535 - HEADERS
  {
    Packet(FIRST, saddr, sport, daddr, dport, Transmitted(Computed(saddr, sport, daddr, dport, data)), data)
  }

  // ---------- What is sent ----------

  lemma SameImage(e: Endian, s: seq<byte>)
    ensures HostBytes(e, Checksum(e, s)) == NetBytes(Checksum(Big, s))
  {
    ChecksumByteOrder(s);
  }

  lemma SentIpHeader(e: Endian, len: word, saddr: address, daddr: address)
    ensures
      var first := if e == Little then 0x45 else 0x54;
      IpHeader(e, len, Checksum(e, IpHeader(e, len, 0, saddr, daddr)), saddr, daddr) ==
      StandardIpHeader(first, len, Checksum(Big, StandardIpHeader(first, len, 0, saddr, daddr)), saddr, daddr)
  {
    hide Checksum, HostBytes, NetBytes, StandardIpHeader, IpHeader;
    var first := if e == Little then 0x45 else 0x54;
    var plain := StandardIpHeader(first, len, 0, saddr, daddr);
    ZeroImage(e);
    SameIpHeader(e, len, 0, 0, saddr, daddr);
    SameImage(e, plain);
    SameIpHeader(e, len, Checksum(e, plain), Checksum(Big, plain), saddr, daddr);
  }

  lemma ZeroImage(e: Endian)
    ensures HostBytes(e, 0) == NetBytes(0)
  {}

  /** The same header, if the checksum is the same in memory. */
  lemma SameIpHeader(e: Endian, len: word, check: word, image: word, saddr: address, daddr: address)
    requires HostBytes(e, check) == NetBytes(image)
    ensures IpHeader(e, len, check, saddr, daddr) ==
            StandardIpHeader(if e == Little then 0x45 else 0x54, len, image, saddr, daddr)
  {
    hide HostBytes;
    var h, s := IpHeader(e, len, check, saddr, daddr),
                StandardIpHeader(if e == Little then 0x45 else 0x54, len, image, saddr, daddr);
    IpFieldsByteByByte(h, VersionByte(e), len, TTL, PROTOCOL_UDP, HostBytes(e, check), saddr, daddr);
    hide IpHeader, IpFields;
    assert h[..20] == h;
    assert forall k | 0 <= k < 4 :: s[12 + k] == saddr[k] && s[16 + k] == daddr[k];
    assert forall k | 0 <= k < 20 :: h[k] == s[k];
  }

  /** The UDP header sent carries the computed checksum itself. */
  lemma SentUdpHeader(e: Endian, saddr: address, sport: word, daddr: address, dport: word, data: seq<byte>)
    requires |data| <= 65535 - HEADERS
    ensures
      var len := 8 + |data|;
      var text := PseudoHeader(saddr, daddr, PROTOCOL_UDP, len) + (UdpHeader(e, sport, dport, len, 0) + data);
      && text == UdpText(saddr, sport, daddr, dport, data)
      && UdpHeader(e, sport, dport, len, Checksum(e, text)) ==
         StandardUdpHeader(sport, dport, len, Computed(saddr, sport, daddr, dport, data))
  {
    hide Checksum, HostBytes, NetBytes, StandardUdpHeader, UdpHeader, PseudoHeader;
    var len := 8 + |data|;
    ZeroImage(e);
    SameUdpHeader(e, sport, dport, len, 0, 0);
    SamePseudoHeader(saddr, daddr, len);
    var text := UdpText(saddr, sport, daddr, dport, data);
    SameImage(e, text);
    SameUdpHeader(e, sport, dport, len, Checksum(e, text), Checksum(Big, text));
  }

  lemma SameUdpHeader(e: Endian, sport: word, dport: word, len: word, check: word, image: word)
    requires HostBytes(e, check) == NetBytes(image)
    ensures UdpHeader(e, sport, dport, len, check) == StandardUdpHeader(sport, dport, len, image)
  {
    hide HostBytes;
  }

  lemma SamePseudoHeader(saddr: address, daddr: address, len: word)
    ensures PseudoHeader(saddr, daddr, PROTOCOL_UDP, len) == saddr + daddr + [0, 17, len / 256, len % 256]
  {}

  /** What is sent, byte by byte: the checksums lie in memory as the standards lay them out, the UDP
      checksum is sent as computed, and the first byte depends on the machine. */
  lemma SentPacket(e: Endian, saddr: address, sport: word, daddr: address, dport: word, data: seq<byte>)
    requires |data| <= 65535 - HEADERS
    ensures
      Datagram(e, saddr, sport, daddr, dport, data) ==
      Packet(if e == Little then 0x45 else 0x54, saddr, sport, daddr, dport,
             Computed(saddr, sport, daddr, dport, data), data)
  {
    hide Checksum, StandardIpHeader, StandardUdpHeader, IpHeader, UdpHeader, PseudoHeader, Computed, UdpText;
    SentIpHeader(e, IP_HEADER + 8 + |data|, saddr, daddr);
    SentUdpHeader(e, saddr, sport, daddr, dport, data);
  }

  lemma PacketFields(first: byte, saddr: address, sport: word, daddr: address, dport: word, udpCheck: word,
                     data: seq<byte>)
    requires |data| <= 65535 - HEADERS
    ensures
      var p := Packet(first, saddr, sport, daddr, dport, udpCheck, data);
      && |p| == 28 + |data| && p[0] == first && WordAt(Big, p, 26) == udpCheck
  {}

  /** What is sent is the datagram of the standards exactly on a little-endian machine and when
      the computed UDP checksum is not zero. */
  lemma SentIsStandard(e: Endian, saddr: address, sport: word, daddr: address, dport: word, data: seq<byte>)
    requires |data| <= 65535 - HEADERS
    ensures
      Datagram(e, saddr, sport, daddr, dport, data) == StandardDatagram(saddr, sport, daddr, dport, data) <==>
      e == Little && Computed(saddr, sport, daddr, dport, data) != 0
  {
    hide Computed, Datagram, Packet;
    var c := Computed(saddr, sport, daddr, dport, data);
    SentPacket(e, saddr, sport, daddr, dport, data);
    PacketFields(if e == Little then 0x45 else 0x54, saddr, sport, daddr, dport, c, data);
    PacketFields(FIRST, saddr, sport, daddr, dport, Transmitted(c), data);
  }

  /** It does come out as zero: for all addresses, ports and data some first word of the data
      makes it so, and the packet then leaves without UDP protection. */
  lemma ComputedZeroHappens(saddr: address, sport: word, daddr: address, dport: word, data: seq<byte>)
    requires 2 <= |data| <= 65535 - HEADERS
    ensures exists w: word :: Computed(saddr, sport, daddr, dport, Store(Big, data, 0, w)) == 0
  {
    var text := UdpText(saddr, sport, daddr, dport, data);
    var c := Checksum(Big, Store(Big, text, 20, 0));
    WholeSumTest(Big, text, 20, c);
    assert UdpText(saddr, sport, daddr, dport, Store(Big, data, 0, c)) == Store(Big, text, 20, c);
  }

  // ---------- What is received ----------

  /** Machines of different byte order ignore each other's datagrams. */
  lemma OtherByteOrderIgnored(e: Endian, f: Endian, saddr: address, sport: word, daddr: address, dport: word,
                              data: seq<byte>, extra: seq<byte>, payload: seq<byte>)
    requires |payload| >= DHCP_SIZE && |data| <= 65535 - HEADERS && |data| + |extra| <= |payload|
    requires e != f
    ensures
      var p := Datagram(e, saddr, sport, daddr, dport, data) + extra;
      |p| <= HEADERS + |payload| && Receive(f, p, payload) == (Ignored, payload)
  {
    hide Datagram, IpSumOk, UdpSumOk, Packet, Computed;
    var first := if e == Little then 0x45 else 0x54;
    SentPacket(e, saddr, sport, daddr, dport, data);
    PacketFields(first, saddr, sport, daddr, dport, Computed(saddr, sport, daddr, dport, data), data);
  }

  lemma AllOnesRefused(saddr: address, sport: word, daddr: address, dport: word, data: seq<byte>, extra: seq<byte>)
    requires |data| <= 65535 - HEADERS && Computed(saddr, sport, daddr, dport, data) == 0
    ensures
      var p := StandardDatagram(saddr, sport, daddr, dport, data) + extra;
      |p| >= HEADERS && |p| >= TotalLength(p) && !UdpSumOk(Little, p)
  {
    var p, len := StandardDatagram(saddr, sport, daddr, dport, data) + extra, 8 + |data|;
    var ipCheck := Checksum(Big, StandardIpHeader(FIRST, IP_HEADER + len, 0, saddr, daddr));
    assert p[..IP_HEADER] == StandardIpHeader(FIRST, IP_HEADER + len, ipCheck, saddr, daddr);
    StandardIpParts(p, IP_HEADER + len, ipCheck, saddr, daddr);
    assert UdpHeader(Little, sport, dport, len, 65535) == StandardUdpHeader(sport, dport, len, 65535);
    assert p[IP_HEADER..IP_HEADER + len] == UdpHeader(Little, sport, dport, len, 65535) + data;
    UdpHeaderParts(Little, p, sport, dport, len, 65535, data);
    SentUdpHeader(Little, saddr, sport, daddr, dport, data);
    ChecksumByteOrder(UdpText(saddr, sport, daddr, dport, data));
  }

  lemma StandardIpParts(p: seq<byte>, len: word, check: word, saddr: address, daddr: address)
    requires |p| >= HEADERS && p[..IP_HEADER] == StandardIpHeader(FIRST, len, check, saddr, daddr)
    ensures p[0] == FIRST && p[9] == PROTOCOL_UDP && TotalLength(p) == len
    ensures p[12..16] == saddr && p[16..20] == daddr
  {
    var h := StandardIpHeader(FIRST, len, check, saddr, daddr);
    assert forall k | 0 <= k < 20 :: p[k] == p[..IP_HEADER][k] == h[k];
    assert forall k | 0 <= k < 4 :: p[12..16][k] == p[12 + k] && p[16..20][k] == p[16 + k];
  }

  /** What becomes of a datagram of the standards, with anything read behind it: it reaches the
      message buffer exactly on a little-endian machine, at port 68, and unless its computed
      checksum is zero, for then the all ones it carries are refused. Its length is the result
      exactly if the cookie is in place then. */
  lemma StandardReceived(e: Endian, saddr: address, sport: word, daddr: address, dport: word,
                         data: seq<byte>, extra: seq<byte>, payload: seq<byte>)
    requires |payload| >= DHCP_SIZE && |data| <= 65535 - HEADERS && |data| + |extra| <= |payload|
    ensures
      var p, message := StandardDatagram(saddr, sport, daddr, dport, data) + extra, data + payload[|data|..];
      |p| <= HEADERS + |payload| &&
      Receive(e, p, payload) ==
      if e == Little && dport == 68 && Computed(saddr, sport, daddr, dport, data) != 0
      then (if message[236..240] == [0x63, 0x82, 0x53, 0x63] then Accepted(|data|) else Ignored, message)
      else (Ignored, payload)
  {
    hide Computed, IpSumOk, UdpSumOk, Packet;
    var p, c := StandardDatagram(saddr, sport, daddr, dport, data) + extra, Computed(saddr, sport, daddr, dport, data);
    PacketFields(FIRST, saddr, sport, daddr, dport, Transmitted(c), data);
    if e == Big {
      assert p[0] == FIRST;
    } else if c == 0 {
      AllOnesRefused(saddr, sport, daddr, dport, data, extra);
    } else {
      SentIsStandard(Little, saddr, sport, daddr, dport, data);
      hide StandardDatagram, Datagram;
      DatagramFields(Little, saddr, sport, daddr, dport, data, extra);
    }
  }

  /** A message long enough to have a cookie of its own comes through whole, and its length is the
      result, exactly under these conditions. */
  lemma StandardAcceptedExactly(e: Endian, saddr: address, sport: word, daddr: address, dport: word,
                                data: seq<byte>, extra: seq<byte>, payload: seq<byte>)
    requires |payload| >= DHCP_SIZE && 240 <= |data| <= 65535 - HEADERS && |data| + |extra| <= |payload|
    ensures
      var p := StandardDatagram(saddr, sport, daddr, dport, data) + extra;
      && |p| <= HEADERS + |payload|
      && (Receive(e, p, payload) == (Accepted(|data|), data + payload[|data|..]) <==>
            && e == Little && dport == 68 && data[236..240] == [0x63, 0x82, 0x53, 0x63]
            && Computed(saddr, sport, daddr, dport, data) != 0)
      && (Receive(e, p, payload).0.Accepted? ==> Receive(e, p, payload).0 == Accepted(|data|))
  {
    hide Computed, Receive, StandardDatagram;
    StandardReceived(e, saddr, sport, daddr, dport, data, extra, payload);
    assert (data + payload[|data|..])[236..240] == data[236..240];
  }

  // ---------- The checksum test ----------

  /** What is summed when a UDP checksum is verified as it stands in the packet. */
  function Summed(p: seq<byte>): seq<byte>
    requires |p| >= HEADERS && |p| >= TotalLength(p) >= HEADERS
  {
    PseudoHeader(p[12..16], p[16..20], p[9], UdpLength(p)) + p[IP_HEADER..TotalLength(p)]
  }

  /** The test of RFC 768: no checksum, or the whole sums up to zero. */
  predicate StandardSumOk(e: Endian, p: seq<byte>)
    requires |p| >= HEADERS && |p| >= TotalLength(p) >= HEADERS
  {
    WordAt(e, p, 26) == 0 || Checksum(e, Summed(p)) == 0
  }

  /** The client's test is that of RFC 768 but for one case, in which it is too strict: all ones
      that stand for a computed zero. */
  lemma SumTestVersusStandard(e: Endian, p: seq<byte>)
    requires |p| >= HEADERS && |p| >= TotalLength(p) >= HEADERS
    ensures UdpSumOk(e, p) <==>
            StandardSumOk(e, p) &&
            !(WordAt(e, p, 26) == 65535 && Checksum(e, Store(e, Summed(p), 18, 0)) == 0)
  {
    var n, s := TotalLength(p), Summed(p);
    var pseudo := PseudoHeader(p[12..16], p[16..20], p[9], UdpLength(p));
    assert Store(e, s, 18, 0) == pseudo + Store(e, p[IP_HEADER..n], 6, 0);
    assert Store(e, s, 18, WordAt(e, p, 26)) == s;
    WholeSumTest(e, s, 18, WordAt(e, p, 26));
  }

  /** Likewise for the IP header, where the case left out needs a header of all zeros otherwise. */
  lemma IpTestVersusStandard(e: Endian, p: seq<byte>)
    requires |p| >= HEADERS
    ensures IpSumOk(e, p) <==>
            Checksum(e, p[..20]) == 0 &&
            !(WordAt(e, p, 10) == 65535 && Checksum(e, Store(e, p[..20], 10, 0)) == 0)
  {
    assert Store(e, p[..20], 10, WordAt(e, p, 10)) == p[..20];
    WholeSumTest(e, p[..20], 10, WordAt(e, p, 10));
  }

  /** A total length below both headers leaves only the start of the scratch packet to sum. */
  lemma ShortSumTest(e: Endian, p: seq<byte>)
    requires |p| >= HEADERS && TotalLength(p) < HEADERS
    ensures
      var scratch := [0, 0, p[24], p[25], 0, 0, 0, 0, 0, p[9], 0, 0] + p[12..26] + [0, 0];
      UdpSumOk(e, p) <==> WordAt(e, p, 26) == 0 || WordAt(e, p, 26) == Checksum(e, scratch[..NetWord(p[2], p[3])])
  {
    var scratch := [0, 0, p[24], p[25], 0, 0, 0, 0, 0, p[9], 0, 0] + p[12..26] + [0, 0];
    assert NetBytes(UdpLength(p)) == [p[24], p[25]];
    assert Overlay(p[12..16], p[16..20], p[9], UdpLength(p)) == scratch[..20];
    assert Store(e, p[IP_HEADER..], 6, 0)[..8] == scratch[20..];
    assert Scratch(e, p)[..28] == scratch;
    assert Scratch(e, p)[..TotalLength(p)] == scratch[..NetWord(p[2], p[3])];
  }
}
