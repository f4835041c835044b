/** The sending half of the raw DHCP client: a full IP/UDP/DHCP datagram is built in place, and
    its IP header serves as the UDP pseudo-header while the UDP checksum is taken. */
module DhcpPacket {
  import opened Bytes
  import opened OnesComplement
  import opened ChecksumCode

  const IP_HEADER: nat := 20
  const HEADERS: nat := 28         // IP header and UDP header
  const DHCP_SIZE: nat := 548      // a dhcpMessage without the slack behind its options
  const PROTOCOL_UDP: byte := 17
  const TTL: byte := 64
  const CLIENT_PORT: word := 68
  const COOKIE: nat := 236         // offset of the cookie in a dhcpMessage
  const MAGIC: seq<byte> := [0x63, 0x82, 0x53, 0x63]

  type address = a: seq<byte> | |a| == 4 witness [0, 0, 0, 0]

  /** The first header byte: `ihl` 5 and `version` 4, bit-fields declared in that order. */
  function VersionByte(e: Endian): byte {
    match e
    case Little => 4 * 16 + 5
    case Big => 5 * 16 + 4
  }

  // ---------- The datagram on the wire ----------

  /** An IP header with the fields this client ever sets; `check` is a memory image. */
  function IpFields(first: byte, len: word, ttl: byte, protocol: byte, check: seq<byte>,
                    saddr: address, daddr: address): (h: seq<byte>)
    requires |check| == 2
    ensures |h| == IP_HEADER
  {
    [first, 0] + NetBytes(len) + Zeros(4) + [ttl, protocol] + check + saddr + daddr
  }

  function IpHeader(e: Endian, len: word, check: word, saddr: address, daddr: address): (h: seq<byte>)
    ensures |h| == IP_HEADER
  {
    IpFields(VersionByte(e), len, TTL, PROTOCOL_UDP, HostBytes(e, check), saddr, daddr)
  }

  predicate HasIpFields(p: seq<byte>, first: byte, len: word, ttl: byte, protocol: byte, check: seq<byte>,
                        saddr: address, daddr: address)
    requires |p| >= IP_HEADER && |check| == 2
  {
    && p[0] == first && p[1] == 0
    && p[2] == NetBytes(len)[0] && p[3] == NetBytes(len)[1]
    && p[4] == 0 && p[5] == 0 && p[6] == 0 && p[7] == 0
    && p[8] == ttl && p[9] == protocol
    && p[10] == check[0] && p[11] == check[1]
    && p[12] == saddr[0] && p[13] == saddr[1] && p[14] == saddr[2] && p[15] == saddr[3]
    && p[16] == daddr[0] && p[17] == daddr[1] && p[18] == daddr[2] && p[19] == daddr[3]
  }

  lemma IpFieldsByteByByte(p: seq<byte>, first: byte, len: word, ttl: byte, protocol: byte, check: seq<byte>,
                           saddr: address, daddr: address)
    requires |p| >= IP_HEADER && |check| == 2
    ensures p[..IP_HEADER] == IpFields(first, len, ttl, protocol, check, saddr, daddr) <==>
            HasIpFields(p, first, len, ttl, protocol, check, saddr, daddr)
  {}

  function UdpHeader(e: Endian, sport: word, dport: word, len: word, check: word): (h: seq<byte>)
    ensures |h| == 8
  {
    NetBytes(sport) + NetBytes(dport) + NetBytes(len) + HostBytes(e, check)
  }

  /** The pseudo-header conceptually prefixed to a UDP header ("Fields" of RFC 768). */
  function PseudoHeader(saddr: address, daddr: address, protocol: byte, len: word): (h: seq<byte>)
    ensures |h| == 12
  {
    saddr + daddr + [0, protocol] + NetBytes(len)
  }

  /** What the client means to send, with its own version byte and its checksums in host order;
      `DhcpStandards` says when that is a datagram of the standards. */
  function Datagram(e: Endian, saddr: address, sport: word, daddr: address, dport: word, data: seq<byte>): seq<byte>
    requires |data| <= 65535 - HEADERS
  {
    var len := 8 + |data|;
    var pseudo := PseudoHeader(saddr, daddr, PROTOCOL_UDP, len);
    var udpCheck := Checksum(e, pseudo + (UdpHeader(e, sport, dport, len, 0) + data));
    var ipCheck := Checksum(e, IpHeader(e, IP_HEADER + len, 0, saddr, daddr));
    IpHeader(e, IP_HEADER + len, ipCheck, saddr, daddr) + UdpHeader(e, sport, dport, len, udpCheck) + data
  }

  // ---------- The pseudo-header overlaid on the IP header ----------

  /** The IP header while the UDP checksum is taken: everything zero but the protocol, the
      addresses and a total length that holds the UDP length. */
  function Overlay(saddr: address, daddr: address, protocol: byte, len: word): (h: seq<byte>)
    ensures |h| == IP_HEADER
  {
    IpFields(0, len, 0, protocol, [0, 0], saddr, daddr)
  }

  lemma PairSum(e: Endian, x: byte, y: byte)
    ensures WordSum(e, [x, y]) == HostWord(e, x, y)
  {}

  lemma OverlaySum(e: Endian, saddr: address, daddr: address, protocol: byte, len: word)
    ensures WordSum(e, Overlay(saddr, daddr, protocol, len)) ==
            WordSum(e, NetBytes(len)) + WordSum(e, [0, protocol]) + WordSum(e, saddr) + WordSum(e, daddr)
  {
    var h := [0, 0] + NetBytes(len) + Zeros(4) + [0, protocol] + [0, 0];
    WordSumAppend(e, h + saddr, daddr);
    WordSumAppend(e, h, saddr);
    WordSumAppend(e, [0, 0] + NetBytes(len) + Zeros(4) + [0, protocol], [0, 0]);
    WordSumAppend(e, [0, 0] + NetBytes(len) + Zeros(4), [0, protocol]);
    WordSumAppend(e, [0, 0] + NetBytes(len), Zeros(4));
    WordSumAppend(e, [0, 0], NetBytes(len));
    PairSum(e, 0, 0);
    WordSumZeros(e, 4);
  }

  lemma PseudoHeaderSum(e: Endian, saddr: address, daddr: address, protocol: byte, len: word)
    ensures WordSum(e, PseudoHeader(saddr, daddr, protocol, len)) ==
            WordSum(e, saddr) + WordSum(e, daddr) + WordSum(e, [0, protocol]) + WordSum(e, NetBytes(len))
  {
    WordSumAppend(e, saddr + daddr + [0, protocol], NetBytes(len));
    WordSumAppend(e, saddr + daddr, [0, protocol]);
    WordSumAppend(e, saddr, daddr);
  }

  /** Summing the packet with the overlay in place of the IP header gives the checksum that
      RFC 768 computes over the pseudo-header, the UDP header and the data. */
  lemma OverlayIsPseudoHeader(e: Endian, saddr: address, daddr: address, protocol: byte, len: word, udp: seq<byte>)
    ensures Checksum(e, Overlay(saddr, daddr, protocol, len) + udp) ==
            Checksum(e, PseudoHeader(saddr, daddr, protocol, len) + udp)
  {
    WordSumAppend(e, Overlay(saddr, daddr, protocol, len), udp);
    WordSumAppend(e, PseudoHeader(saddr, daddr, protocol, len), udp);
    OverlaySum(e, saddr, daddr, protocol, len);
    PseudoHeaderSum(e, saddr, daddr, protocol, len);
  }

  // ---------- Sending ----------

  /** Assignment of a field, given as its memory image. */
  method Put(packet: array<byte>, at: nat, image: seq<byte>)
    requires at + |image| <= packet.Length
    modifies packet
    ensures forall k | 0 <= k < packet.Length ::
              packet[k] == if at <= k < at + |image| then image[k - at] else old(packet[k])
  {
    forall i | 0 <= i < |image| {
      packet[at + i] := image[i];
    }
  }

  /** The packet as it is summed for the UDP checksum. */
  method FillForUdpSum(packet: array<byte>, e: Endian, payload: seq<byte>, saddr: address, sport: word,
                       daddr: address, dport: word)
    requires packet.Length == HEADERS + |payload|
    requires forall k | 0 <= k < packet.Length :: packet[k] == 0
    modifies packet
    ensures packet[..IP_HEADER] == Overlay(saddr, daddr, PROTOCOL_UDP, 8 + DHCP_SIZE)
    ensures packet[IP_HEADER..] == UdpHeader(e, sport, dport, 8 + DHCP_SIZE, 0) + payload
  {
    hide IpFields, NetBytes, UdpHeader;
    Put(packet, HEADERS, payload);
    Put(packet, 9, [PROTOCOL_UDP]);
    Put(packet, 12, saddr);
    Put(packet, 16, daddr);
    Put(packet, 20, NetBytes(sport));
    Put(packet, 22, NetBytes(dport));
    Put(packet, 24, NetBytes(8 + DHCP_SIZE));
    Put(packet, 2, [packet[24], packet[25]]);
    IpFieldsByteByByte(packet[..], 0, 8 + DHCP_SIZE, 0, PROTOCOL_UDP, [0, 0], saddr, daddr);
    UdpByteByByte(e, packet[IP_HEADER..], sport, dport, 8 + DHCP_SIZE, payload);
  }

  lemma UdpByteByByte(e: Endian, udp: seq<byte>, sport: word, dport: word, len: word, data: seq<byte>)
    requires |udp| == 8 + |data| && forall k | 0 <= k < |data| :: udp[8 + k] == data[k]
    requires [udp[0], udp[1]] == NetBytes(sport) && [udp[2], udp[3]] == NetBytes(dport)
    requires [udp[4], udp[5]] == NetBytes(len) && udp[6] == udp[7] == 0
    ensures udp == UdpHeader(e, sport, dport, len, 0) + data
  {
    assert HostBytes(e, 0) == [udp[6], udp[7]];
    assert udp[..8] == UdpHeader(e, sport, dport, len, 0);
    assert udp[8..] == data;
  }

  /** The checksum stored in the UDP header. */
  method StoreUdpCheck(packet: array<byte>, e: Endian, check: word, ghost sport: word, ghost dport: word,
                       ghost payload: seq<byte>)
    requires packet.Length >= HEADERS
    requires packet[IP_HEADER..] == UdpHeader(e, sport, dport, 8 + DHCP_SIZE, 0) + payload
    modifies packet
    ensures packet[..IP_HEADER] == old(packet[..IP_HEADER])
    ensures packet[IP_HEADER..] == UdpHeader(e, sport, dport, 8 + DHCP_SIZE, check) + payload
  {
    ghost var was := packet[IP_HEADER..];
    assert forall i | 0 <= i < |was| :: packet[IP_HEADER + i] == was[i];
    Put(packet, 26, HostBytes(e, check));
  }

  /** The IP header put back over the pseudo-header, with its own checksum. */
  method FinishIpHeader(packet: array<byte>, e: Endian, ghost saddr: address, ghost daddr: address)
    requires packet.Length >= HEADERS + DHCP_SIZE
    requires packet[..IP_HEADER] == Overlay(saddr, daddr, PROTOCOL_UDP, 8 + DHCP_SIZE)
    modifies packet
    ensures packet[IP_HEADER..] == old(packet[IP_HEADER..])
    ensures
      var check := Checksum(e, IpHeader(e, HEADERS + DHCP_SIZE, 0, saddr, daddr));
      packet[..IP_HEADER] == IpHeader(e, HEADERS + DHCP_SIZE, check, saddr, daddr)
  {
    IpFieldsByteByByte(packet[..], 0, 8 + DHCP_SIZE, 0, PROTOCOL_UDP, [0, 0], saddr, daddr);
    Put(packet, 2, NetBytes(HEADERS + DHCP_SIZE));
    Put(packet, 0, [VersionByte(e)]);
    Put(packet, 8, [TTL]);
    IpFieldsByteByByte(packet[..], VersionByte(e), HEADERS + DHCP_SIZE, TTL, PROTOCOL_UDP, HostBytes(e, 0),
                       saddr, daddr);
    AccumulatorFits(e, packet[..IP_HEADER]);
    var check := UdhcpChecksum(e, packet, IP_HEADER);
    Put(packet, 10, HostBytes(e, check));
    IpFieldsByteByByte(packet[..], VersionByte(e), HEADERS + DHCP_SIZE, TTL, PROTOCOL_UDP, HostBytes(e, check),
                       saddr, daddr);
  }

  method SendRawPacket(e: Endian, slack: nat, payload: array<byte>, sourceIp: address, sourcePort: int,
                       destIp: address, destPort: int)
    returns (wire: seq<byte>)
    requires payload.Length == DHCP_SIZE + slack
    ensures |wire| == 576
    ensures wire == Datagram(e, sourceIp, sourcePort % 65536, destIp, destPort % 65536, payload[..548])
  {
    var packet := new byte[HEADERS + DHCP_SIZE + slack](_ => 0);
    var sport, dport: word := sourcePort % 65536, destPort % 65536;
    FillForUdpSum(packet, e, payload[..], sourceIp, sport, destIp, dport);
    ghost var message, data := payload[..], payload[..DHCP_SIZE];
    ghost var udp0 := UdpHeader(e, sport, dport, 8 + DHCP_SIZE, 0);
    assert packet[..HEADERS + DHCP_SIZE] == packet[..IP_HEADER] + (udp0 + data) by {
      Cut(packet[..], udp0, message);
    }
    OverlayIsPseudoHeader(e, sourceIp, destIp, PROTOCOL_UDP, 8 + DHCP_SIZE, udp0 + data);
    AccumulatorFits(e, packet[..HEADERS + DHCP_SIZE]);
    var check := UdhcpChecksum(e, packet, HEADERS + DHCP_SIZE);
    StoreUdpCheck(packet, e, check, sport, dport, message);
    FinishIpHeader(packet, e, sourceIp, destIp);
    Cut(packet[..], UdpHeader(e, sport, dport, 8 + DHCP_SIZE, check), message);
    wire := packet[..HEADERS + DHCP_SIZE];
  }

  lemma Cut(p: seq<byte>, udp: seq<byte>, message: seq<byte>)
    requires |p| == HEADERS + |message| && |udp| == 8 && |message| >= DHCP_SIZE
    requires p[IP_HEADER..] == udp + message
    ensures p[..HEADERS + DHCP_SIZE] == p[..IP_HEADER] + (udp + message[..DHCP_SIZE])
    ensures p[..HEADERS + DHCP_SIZE] == p[..IP_HEADER] + udp + message[..DHCP_SIZE]
  {}
}
