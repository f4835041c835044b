/** The receiving half of the raw DHCP client, and what it makes of the datagrams sent. */
module DhcpReceive {
  import opened Options
  import opened Bytes
  import opened OnesComplement
  import opened ChecksumCode
  import opened DhcpPacket

  datatype Received =
    | ReadError                // the read failed: fatal for the socket
    | Ignored                  // not for us, damaged or bogus
    | CopyFault                // a total length below both headers: the copy length is negative
    | Accepted(size: nat)      // a DHCP message of `size` bytes

  function TotalLength(p: seq<byte>): word
    requires |p| >= HEADERS
  {
    NetWord(p[2], p[3])
  }

  function UdpLength(p: seq<byte>): word
    requires |p| >= HEADERS
  {
    NetWord(p[24], p[25])
  }

  /** `(uint16_t)(bytes - sizeof(packet.ip))` */
  function LessHeader(bytes: word): word {
    if bytes >= IP_HEADER then bytes - IP_HEADER else bytes - IP_HEADER + 65536
  }

  predicate ForUs(e: Endian, p: seq<byte>)
    requires |p| >= HEADERS
  {
    && |p| >= TotalLength(p)
    && p[9] == PROTOCOL_UDP
    && p[0] == VersionByte(e)
    && NetWord(p[22], p[23]) == CLIENT_PORT
    && UdpLength(p) == LessHeader(TotalLength(p))
  }

  predicate IpSumOk(e: Endian, p: seq<byte>)
    requires |p| >= HEADERS
  {
    WordAt(e, p, 10) == Checksum(e, Store(e, p[..IP_HEADER], 10, 0))
  }

  /** The packet once the overlay is in place and the UDP checksum field is cleared. */
  function Scratch(e: Endian, p: seq<byte>): (s: seq<byte>)
    requires |p| >= HEADERS
    ensures |s| == |p|
  {
    Overlay(p[12..16], p[16..20], p[9], UdpLength(p)) + Store(e, p[IP_HEADER..], 6, 0)
  }

  /** No checksum, or just the one computed over pseudo-header, UDP header and data. A total length
      that cuts the headers short leaves nothing to apply that to: the scratch prefix is what gets
      summed. `DhcpStandards` compares this with the test of RFC 768. */
  predicate UdpSumOk(e: Endian, p: seq<byte>)
    requires |p| >= HEADERS && |p| >= TotalLength(p)
  {
    var check := WordAt(e, p, 26);
    var n := TotalLength(p);
    check == 0 ||
    check == if n < HEADERS then Checksum(e, Scratch(e, p)[..n]) else
             Checksum(e, PseudoHeader(p[12..16], p[16..20], p[9], UdpLength(p)) + Store(e, p[IP_HEADER..n], 6, 0))
  }

  /** What becomes of a packet `p` and of the caller's message buffer. */
  function Receive(e: Endian, p: seq<byte>, payload: seq<byte>): (Received, seq<byte>)
    requires |payload| >= DHCP_SIZE && |p| <= HEADERS + |payload|
  {
    if |p| < HEADERS || !ForUs(e, p) || !IpSumOk(e, p) || !UdpSumOk(e, p) then (Ignored, payload)
    else if TotalLength(p) < HEADERS then (CopyFault, payload)
    else Deliver(p[HEADERS..TotalLength(p)], payload)
  }

  /** Data copied over the start of the message buffer; the cookie is looked for in the result. */
  function Deliver(data: seq<byte>, payload: seq<byte>): (Received, seq<byte>)
    requires |data| <= |payload| && |payload| >= DHCP_SIZE
  {
    var message := data + payload[|data|..];
    (if message[COOKIE..COOKIE + 4] == MAGIC then Accepted(|data|) else Ignored, message)
  }

  // ---------- The code ----------

  /** The sanity checks. */
  method VerifyFields(e: Endian, packet: array<byte>, bytes: word, ghost p: seq<byte>) returns (ok: bool)
    requires |p| >= HEADERS && packet.Length >= |p| >= bytes == TotalLength(p) && packet[..|p|] == p
    ensures ok <==> ForUs(e, p)
  {
    assert forall k | 0 <= k < |p| :: packet[k] == packet[..|p|][k];
    ok := !(packet[9] != PROTOCOL_UDP || packet[0] != VersionByte(e)
            || NetWord(packet[22], packet[23]) != CLIENT_PORT
            || NetWord(packet[24], packet[25]) != LessHeader(bytes));
  }

  /** Takes the IP checksum out of the header and compares it with the sum of the rest. */
  method VerifyIpSum(e: Endian, packet: array<byte>, ghost p: seq<byte>) returns (ok: bool)
    requires |p| >= HEADERS && packet.Length >= |p| && packet[..|p|] == p
    modifies packet
    ensures ok <==> IpSumOk(e, p)
    ensures forall k | 0 <= k < |p| :: packet[k] == if 10 <= k < 12 then 0 else p[k]
  {
    var check := HostWord(e, packet[10], packet[11]);
    Put(packet, 10, [0, 0]);
    assert packet[..IP_HEADER] == Store(e, p[..IP_HEADER], 10, 0);
    AccumulatorFits(e, packet[..IP_HEADER]);
    var sum := UdhcpChecksum(e, packet, IP_HEADER);
    ok := check == sum;
  }

  /** Lays the pseudo-header over the IP header and takes the UDP checksum out. */
  method LayOverlay(e: Endian, packet: array<byte>, ghost p: seq<byte>) returns (check: word)
    requires |p| >= HEADERS && packet.Length >= |p|
    requires forall k | 0 <= k < |p| :: packet[k] == if 10 <= k < 12 then 0 else p[k]
    modifies packet
    ensures check == WordAt(e, p, 26)
    ensures packet[..|p|] == Scratch(e, p)
  {
    hide IpFields, NetBytes;
    Put(packet, 0, Zeros(9));
    Put(packet, 2, [packet[24], packet[25]]);
    check := HostWord(e, packet[26], packet[27]);
    Put(packet, 26, [0, 0]);
    IpFieldsByteByByte(packet[..], 0, UdpLength(p), 0, p[9], [0, 0], p[12..16], p[16..20]);
    assert packet[IP_HEADER..|p|] == Store(e, p[IP_HEADER..], 6, 0);
    assert packet[..|p|] == packet[..IP_HEADER] + packet[IP_HEADER..|p|];
  }

  method VerifyUdpSum(e: Endian, packet: array<byte>, bytes: word, ghost p: seq<byte>) returns (ok: bool)
    requires |p| >= HEADERS && packet.Length >= |p| >= bytes == TotalLength(p)
    requires forall k | 0 <= k < |p| :: packet[k] == if 10 <= k < 12 then 0 else p[k]
    modifies packet
    ensures ok <==> UdpSumOk(e, p)
    ensures forall k | HEADERS <= k < |p| :: packet[k] == p[k]
  {
    var check := LayOverlay(e, packet, p);
    ghost var s := Scratch(e, p);
    assert forall k | HEADERS <= k < |p| :: packet[..|p|][k] == s[k] == p[k];
    ok := true;
    if check != 0 {
      assert packet[..bytes] == Scratch(e, p)[..bytes];
      AccumulatorFits(e, packet[..bytes]);
      var sum := UdhcpChecksum(e, packet, bytes);
      if bytes >= HEADERS {
        ScratchSum(e, p);
      }
      ok := check == sum;
    }
  }

  method RecvRawPacket(e: Endian, payload: array<byte>, input: Option<seq<byte>>) returns (r: Received)
    requires payload.Length >= DHCP_SIZE
    requires input.Some? ==> |input.value| <= HEADERS + payload.Length
    modifies payload
    ensures input.None? ==> r == ReadError && payload[..] == old(payload[..])
    ensures input.Some? ==> (r, payload[..]) == Receive(e, input.value, old(payload[..]))
  {
    hide IpSumOk, UdpSumOk, Deliver;
    var packet := new byte[HEADERS + payload.Length](_ => 0);
    if input.None? {
      return ReadError;
    }
    var p := input.value;
    Put(packet, 0, p);
    var bytes := |p|;
    if bytes < HEADERS {
      return Ignored;
    }
    if bytes < NetWord(packet[2], packet[3]) {
      return Ignored;
    }
    bytes := NetWord(packet[2], packet[3]);
    assert packet[..|p|] == p;
    var ok := VerifyFields(e, packet, bytes, p);
    if !ok {
      return Ignored;
    }
    ok := VerifyIpSum(e, packet, p);
    if !ok {
      return Ignored;
    }
    ok := VerifyUdpSum(e, packet, bytes, p);
    if !ok {
      return Ignored;
    }
    if bytes < HEADERS {
      return CopyFault;
    }
    assert packet[HEADERS..bytes] == p[HEADERS..bytes];
    assert HEADERS + (bytes - HEADERS) == bytes;
    r := CopyOut(payload, packet, bytes - HEADERS);
  }

  method CopyOut(payload: array<byte>, packet: array<byte>, size: nat) returns (r: Received)
    requires DHCP_SIZE <= payload.Length && size <= payload.Length && HEADERS + size <= packet.Length
    requires payload != packet
    modifies payload
    ensures (r, payload[..]) == Deliver(packet[HEADERS..HEADERS + size], old(payload[..]))
  {
    ghost var was, data := payload[..], packet[HEADERS..HEADERS + size];
    Put(payload, 0, packet[HEADERS..HEADERS + size]);
    assert payload[..] == data + was[size..];
    r := if payload[COOKIE..COOKIE + 4] == MAGIC then Accepted(size) else Ignored;
  }

  /** The sum over the overlaid packet is the sum RFC 768 asks for. */
  lemma ScratchSum(e: Endian, p: seq<byte>)
    requires |p| >= HEADERS && |p| >= TotalLength(p) >= HEADERS
    ensures
      var n := TotalLength(p);
      Checksum(e, Scratch(e, p)[..n]) ==
      Checksum(e, PseudoHeader(p[12..16], p[16..20], p[9], UdpLength(p)) + Store(e, p[IP_HEADER..n], 6, 0))
  {
    var n := TotalLength(p);
    var udp := Store(e, p[IP_HEADER..n], 6, 0);
    assert Scratch(e, p)[..n] == Overlay(p[12..16], p[16..20], p[9], UdpLength(p)) + udp;
    OverlayIsPseudoHeader(e, p[12..16], p[16..20], p[9], UdpLength(p), udp);
  }

  // ---------- What the two halves promise together ----------

  lemma IpHeaderParts(e: Endian, p: seq<byte>, len: word, check: word, saddr: address, daddr: address)
    requires |p| >= HEADERS && p[..IP_HEADER] == IpHeader(e, len, check, saddr, daddr)
    ensures p[0] == VersionByte(e) && p[9] == PROTOCOL_UDP && TotalLength(p) == len
    ensures p[12..16] == saddr && p[16..20] == daddr && WordAt(e, p, 10) == check
  {}

  lemma IpHeaderCleared(e: Endian, len: word, check: word, saddr: address, daddr: address)
    ensures Store(e, IpHeader(e, len, check, saddr, daddr), 10, 0) == IpHeader(e, len, 0, saddr, daddr)
  {}

  lemma UdpHeaderParts(e: Endian, p: seq<byte>, sport: word, dport: word, len: word, check: word, data: seq<byte>)
    requires |p| >= IP_HEADER + len && len == 8 + |data|
    requires p[IP_HEADER..IP_HEADER + len] == UdpHeader(e, sport, dport, len, check) + data
    ensures UdpLength(p) == len && NetWord(p[22], p[23]) == dport && WordAt(e, p, 26) == check
    ensures p[HEADERS..IP_HEADER + len] == data
    ensures Store(e, p[IP_HEADER..IP_HEADER + len], 6, 0) == UdpHeader(e, sport, dport, len, 0) + data
  {}

  /** The fields of a datagram built by the sender, with anything behind it. */
  lemma DatagramFields(e: Endian, saddr: address, sport: word, daddr: address, dport: word, data: seq<byte>,
                       extra: seq<byte>)
    requires |data| <= 65535 - HEADERS
    ensures
      var p, n := Datagram(e, saddr, sport, daddr, dport, data) + extra, HEADERS + |data|;
      && |p| >= n && TotalLength(p) == n && p[HEADERS..n] == data
      && ForUs(e, p) == (dport == CLIENT_PORT) && IpSumOk(e, p) && UdpSumOk(e, p)
  {
    var p, len := Datagram(e, saddr, sport, daddr, dport, data) + extra, 8 + |data|;
    var udp0 := UdpHeader(e, sport, dport, len, 0) + data;
    var udpCheck := Checksum(e, PseudoHeader(saddr, daddr, PROTOCOL_UDP, len) + udp0);
    var ipCheck := Checksum(e, IpHeader(e, IP_HEADER + len, 0, saddr, daddr));
    assert p[..IP_HEADER] == IpHeader(e, IP_HEADER + len, ipCheck, saddr, daddr);
    assert p[IP_HEADER..IP_HEADER + len] == UdpHeader(e, sport, dport, len, udpCheck) + data;
    IpHeaderParts(e, p, IP_HEADER + len, ipCheck, saddr, daddr);
    IpHeaderCleared(e, IP_HEADER + len, ipCheck, saddr, daddr);
    UdpHeaderParts(e, p, sport, dport, len, udpCheck, data);
  }

  /** Every message sent is received: a datagram built by the sender passes all checks, also
      when its UDP checksum came out as 0 and whatever was read behind it, and exactly the
      bytes sent reach the buffer. The port and the cookie are all it can be refused for. */
  lemma SentIsReceived(e: Endian, saddr: address, sport: word, daddr: address, dport: word,
                       data: seq<byte>, extra: seq<byte>, payload: seq<byte>)
    requires |data| == DHCP_SIZE && |data| + |extra| <= |payload|
    ensures
      Receive(e, Datagram(e, saddr, sport, daddr, dport, data) + extra, payload) ==
      if dport != CLIENT_PORT then (Ignored, payload)
      else if data[COOKIE..COOKIE + 4] != MAGIC then (Ignored, data + payload[DHCP_SIZE..])
      else (Accepted(DHCP_SIZE), data + payload[DHCP_SIZE..])
  {
    DatagramFields(e, saddr, sport, daddr, dport, data, extra);
    assert (data + payload[DHCP_SIZE..])[COOKIE..COOKIE + 4] == data[COOKIE..COOKIE + 4];
  }

  /** What the overlay makes of a datagram sent is byte for byte the buffer the sender summed. */
  lemma ScratchIsSendersBuffer(e: Endian, saddr: address, sport: word, daddr: address, dport: word, data: seq<byte>)
    requires |data| <= 65535 - HEADERS
    ensures
      var len := 8 + |data|;
      Scratch(e, Datagram(e, saddr, sport, daddr, dport, data)) ==
      Overlay(saddr, daddr, PROTOCOL_UDP, len) + (UdpHeader(e, sport, dport, len, 0) + data)
  {
    var p, len := Datagram(e, saddr, sport, daddr, dport, data), 8 + |data|;
    var ipCheck := Checksum(e, IpHeader(e, IP_HEADER + len, 0, saddr, daddr));
    var udp0 := UdpHeader(e, sport, dport, len, 0) + data;
    var udpCheck := Checksum(e, PseudoHeader(saddr, daddr, PROTOCOL_UDP, len) + udp0);
    assert p[..IP_HEADER] == IpHeader(e, IP_HEADER + len, ipCheck, saddr, daddr);
    assert p[IP_HEADER..IP_HEADER + len] == UdpHeader(e, sport, dport, len, udpCheck) + data;
    assert p[IP_HEADER..] == p[IP_HEADER..IP_HEADER + len];
    IpHeaderParts(e, p, IP_HEADER + len, ipCheck, saddr, daddr);
    UdpHeaderParts(e, p, sport, dport, len, udpCheck, data);
  }

  // ---------- Total lengths below both headers ----------

  /** The copy gets a negative length exactly for the packets that pass every test although
      their total length does not cover the headers; their UDP length agrees with it modulo
      65536 only. */
  lemma CopyFaultExactly(e: Endian, p: seq<byte>, payload: seq<byte>)
    requires |payload| >= DHCP_SIZE && |p| <= HEADERS + |payload|
    ensures Receive(e, p, payload).0 == CopyFault <==>
            && |p| >= HEADERS && TotalLength(p) < HEADERS
            && (UdpLength(p) + IP_HEADER) % 65536 == TotalLength(p)
            && p[0] == VersionByte(e) && p[9] == PROTOCOL_UDP && NetWord(p[22], p[23]) == CLIENT_PORT
            && IpSumOk(e, p) && UdpSumOk(e, p)
  {}

  /** A packet of nothing but headers whose total length claims `len` bytes. */
  function ShortClaim(e: Endian, len: word, saddr: address, daddr: address, sport: word): (p: seq<byte>)
    ensures |p| == HEADERS
  {
    IpHeader(e, len, Checksum(e, IpHeader(e, len, 0, saddr, daddr)), saddr, daddr) +
    UdpHeader(e, sport, CLIENT_PORT, LessHeader(len), 0)
  }

  lemma ShortClaimFaults(e: Endian, len: word, saddr: address, daddr: address, sport: word, payload: seq<byte>)
    requires len < HEADERS && |payload| >= DHCP_SIZE
    ensures TotalLength(ShortClaim(e, len, saddr, daddr, sport)) == len
    ensures Receive(e, ShortClaim(e, len, saddr, daddr, sport), payload) == (CopyFault, payload)
  {
    var p := ShortClaim(e, len, saddr, daddr, sport);
    var check := Checksum(e, IpHeader(e, len, 0, saddr, daddr));
    assert p[..IP_HEADER] == IpHeader(e, len, check, saddr, daddr);
    IpHeaderParts(e, p, len, check, saddr, daddr);
    IpHeaderCleared(e, len, check, saddr, daddr);
    var udp := UdpHeader(e, sport, CLIENT_PORT, LessHeader(len), 0);
    assert forall k | 0 <= k < 8 :: p[IP_HEADER + k] == udp[k];
    assert udp[2..4] == NetBytes(CLIENT_PORT) && udp[4..6] == NetBytes(LessHeader(len)) && udp[6..8] == HostBytes(e, 0);
  }

  /** Some packet of total length `len` makes the copy fail exactly when `len` is below 28: a
      caller that refuses shorter ones never sees it. */
  lemma CopyFaultLengths(e: Endian, len: word, payload: seq<byte>)
    requires |payload| >= DHCP_SIZE
    ensures
      (exists p | HEADERS <= |p| <= HEADERS + |payload| && TotalLength(p) == len ::
         Receive(e, p, payload).0 == CopyFault) <==> len < HEADERS
  {
    if len < HEADERS {
      ShortClaimFaults(e, len, [0, 0, 0, 0], [0, 0, 0, 0], 67, payload);
    }
  }

  /** The result and the message buffer for every packet, field by field: a packet that is not for
      us or is damaged leaves the buffer alone; any other is copied over its start, all of it and
      nothing more, and its length is the result if the cookie is in place then. */
  lemma ReceivedExactly(e: Endian, p: seq<byte>, payload: seq<byte>)
    requires |payload| >= DHCP_SIZE && |p| <= HEADERS + |payload|
    ensures
      var (result, message) := Receive(e, p, payload);
      var passes := |p| >= 28 && NetWord(p[2], p[3]) <= |p|
        && p[0] == (if e == Little then 0x45 else 0x54) && p[9] == 17
        && NetWord(p[22], p[23]) == 68 && (NetWord(p[24], p[25]) + 20) % 65536 == NetWord(p[2], p[3])
        && IpSumOk(e, p) && UdpSumOk(e, p);
      if !passes then result == Ignored && message == payload
      else if NetWord(p[2], p[3]) < 28 then result == CopyFault && message == payload
      else
        var size := NetWord(p[2], p[3]) - 28;
        && message == p[28..28 + size] + payload[size..]
        && result == if message[236..240] == [0x63, 0x82, 0x53, 0x63] then Accepted(size) else Ignored
  {}

  lemma ChecksLookNoFurther(e: Endian, p: seq<byte>, n: nat)
    requires HEADERS <= n <= |p| && TotalLength(p) <= n
    ensures ForUs(e, p[..n]) == ForUs(e, p) && IpSumOk(e, p[..n]) == IpSumOk(e, p)
    ensures UdpSumOk(e, p[..n]) == UdpSumOk(e, p)
  {
    var q, t := p[..n], TotalLength(p);
    assert q[..IP_HEADER] == p[..IP_HEADER];
    assert q[12..16] == p[12..16] && q[16..20] == p[16..20];
    if t < HEADERS {
      ScratchPrefix(e, p, n);
      assert Scratch(e, p)[..n][..t] == Scratch(e, p)[..t];
    } else {
      assert q[IP_HEADER..t] == p[IP_HEADER..t];
    }
  }

  lemma ScratchPrefix(e: Endian, p: seq<byte>, n: nat)
    requires HEADERS <= n <= |p|
    ensures Scratch(e, p[..n]) == Scratch(e, p)[..n]
  {
    var q, u := p[..n], p[IP_HEADER..];
    assert q[12..16] == p[12..16] && q[16..20] == p[16..20];
    var s, t := Store(e, q[IP_HEADER..], 6, 0), Store(e, u, 6, 0);
    assert forall k | 0 <= k < n - IP_HEADER :: q[IP_HEADER..][k] == u[k] == p[IP_HEADER + k];
    assert forall k | 0 <= k < n - IP_HEADER :: s[k] == t[k];
  }

  /** Bytes read behind the total length, and behind the headers, never matter. */
  lemma ExtraBytesIgnored(e: Endian, p: seq<byte>, payload: seq<byte>)
    requires |payload| >= DHCP_SIZE && HEADERS <= |p| <= HEADERS + |payload| && TotalLength(p) <= |p|
    ensures
      var n := if TotalLength(p) < HEADERS then HEADERS else TotalLength(p);
      Receive(e, p, payload) == Receive(e, p[..n], payload)
  {
    var t := TotalLength(p);
    var n := if t < HEADERS then HEADERS else t;
    ChecksLookNoFurther(e, p, n);
    assert t >= HEADERS ==> p[..n][HEADERS..t] == p[HEADERS..t];
  }

  /** The IP checksum test notices every change of one header word, except that outside the
      checksum field it cannot tell 0x0000 from 0xFFFF while another word is not zero. */
  lemma HeaderWordChange(e: Endian, p: seq<byte>, k: nat, w: word)
    requires |p| >= HEADERS && k % 2 == 0 && k < IP_HEADER && IpSumOk(e, p)
    ensures
      IpSumOk(e, Store(e, p, k, w)) <==>
        w == WordAt(e, p, k) ||
        (k != 10 && TwoZeros(w, WordAt(e, p, k)) &&
         WordSum(e, Store(e, Store(e, p[..IP_HEADER], 10, 0), k, 0)) != 0)
  {
    var h := Store(e, p[..IP_HEADER], 10, 0);
    WordInHeader(e, p, k, w);
    hide Checksum, WordSum, TwoZeros, Store, WordAt;
    if k != 10 {
      SingleWordChange(e, h, k, w);
    }
  }

  lemma WordInHeader(e: Endian, p: seq<byte>, k: nat, w: word)
    requires |p| >= HEADERS && k % 2 == 0 && k < IP_HEADER
    ensures
      var h, q := Store(e, p[..IP_HEADER], 10, 0), Store(e, p, k, w);
      if k == 10 then WordAt(e, q, 10) == w && Store(e, q[..IP_HEADER], 10, 0) == h
      else WordAt(e, q, 10) == WordAt(e, p, 10) && WordAt(e, h, k) == WordAt(e, p, k) &&
           Store(e, q[..IP_HEADER], 10, 0) == Store(e, h, k, w)
  {}

  /** A datagram damaged in one word of its IP header is ignored and leaves no trace. */
  lemma DamagedHeaderIgnored(e: Endian, p: seq<byte>, payload: seq<byte>, k: nat, w: word)
    requires |payload| >= DHCP_SIZE && HEADERS <= |p| <= HEADERS + |payload|
    requires IpSumOk(e, p) && k % 2 == 0 && k < IP_HEADER
    requires w != WordAt(e, p, k) && (k == 10 || !TwoZeros(w, WordAt(e, p, k)))
    ensures Receive(e, Store(e, p, k, w), payload) == (Ignored, payload)
  {
    HeaderWordChange(e, p, k, w);
  }

  // ---------- Damage behind the IP header: every word, and a left-over byte ----------

  lemma WordInUdp(e: Endian, h: seq<byte>, p: seq<byte>, n: nat, k: nat, w: word)
    requires |h| == 12 && HEADERS <= n <= |p| && IP_HEADER <= k && k != 26 && k % 2 == 0 && k + 1 < n
    ensures WordAt(e, h + Store(e, p[IP_HEADER..n], 6, 0), k - 8) == WordAt(e, p, k)
    ensures h + Store(e, Store(e, p, k, w)[IP_HEADER..n], 6, 0) ==
            Store(e, h + Store(e, p[IP_HEADER..n], 6, 0), k - 8, w)
  {
    hide Store;
    var u, j := p[IP_HEADER..n], k - IP_HEADER;
    var v := Store(e, u, 6, 0);
    StoreWithin(e, p, n, k, w);
    StoresCommute(e, u, j, w);
    StoreBehind(e, h, v, j, w);
    StoreElsewhere(e, u, j);
    assert (h + v)[12 + j] == v[j] && (h + v)[12 + (j + 1)] == v[j + 1];
    assert u[j] == p[k] && u[j + 1] == p[k + 1];
    assert |h| + j == k - 8;
  }

  lemma StoreWithin(e: Endian, p: seq<byte>, n: nat, k: nat, w: word)
    requires IP_HEADER <= k && k + 1 < n <= |p|
    ensures Store(e, p, k, w)[IP_HEADER..n] == Store(e, p[IP_HEADER..n], k - IP_HEADER, w)
  {}

  lemma StoreBehind(e: Endian, h: seq<byte>, s: seq<byte>, j: nat, w: word)
    requires j + 1 < |s|
    ensures Store(e, h + s, |h| + j, w) == h + Store(e, s, j, w)
  {}

  lemma StoresCommute(e: Endian, s: seq<byte>, j: nat, w: word)
    requires 7 < |s| && j + 1 < |s| && j != 6 && j % 2 == 0
    ensures Store(e, Store(e, s, j, w), 6, 0) == Store(e, Store(e, s, 6, 0), j, w)
  {}

  lemma StoreElsewhere(e: Endian, s: seq<byte>, j: nat)
    requires 7 < |s| && j + 1 < |s| && j != 6 && j % 2 == 0
    ensures WordAt(e, Store(e, s, 6, 0), j) == WordAt(e, s, j)
  {}

  /** The UDP test notices every change of a port or of a data word, up to the two zeros. */
  lemma DataWordChange(e: Endian, p: seq<byte>, k: nat, w: word)
    requires |p| >= HEADERS && |p| >= TotalLength(p) >= HEADERS && UdpSumOk(e, p) && WordAt(e, p, 26) != 0
    requires k % 2 == 0 && IP_HEADER <= k && k != 24 && k != 26 && k + 1 < TotalLength(p)
    ensures
      var n := TotalLength(p);
      var pseudo := PseudoHeader(p[12..16], p[16..20], p[9], UdpLength(p));
      UdpSumOk(e, Store(e, p, k, w)) <==>
        w == WordAt(e, p, k) ||
        (TwoZeros(w, WordAt(e, p, k)) &&
         WordSum(e, pseudo + Store(e, Store(e, p, k, 0)[IP_HEADER..n], 6, 0)) != 0)
  {
    var n, q := TotalLength(p), Store(e, p, k, w);
    assert q[12..16] == p[12..16] && q[16..20] == p[16..20];
    var pseudo := PseudoHeader(p[12..16], p[16..20], p[9], UdpLength(p));
    SingleWordChange(e, pseudo + Store(e, p[IP_HEADER..n], 6, 0), k - 8, w);
    WordInUdp(e, pseudo, p, n, k, w);
    WordInUdp(e, pseudo, p, n, k, 0);
  }

  /** In the checksum field itself it notices every change but a clearing. */
  lemma ChecksumFieldChange(e: Endian, p: seq<byte>, w: word)
    requires |p| >= HEADERS && |p| >= TotalLength(p) >= HEADERS && UdpSumOk(e, p) && WordAt(e, p, 26) != 0
    ensures UdpSumOk(e, Store(e, p, 26, w)) <==> w == 0 || w == WordAt(e, p, 26)
  {
    var n, q := TotalLength(p), Store(e, p, 26, w);
    assert q[12..16] == p[12..16] && q[16..20] == p[16..20];
    assert Store(e, q[IP_HEADER..n], 6, 0) == Store(e, p[IP_HEADER..n], 6, 0);
  }

  /** A left-over byte counts as a word whose other half is zero, so that no change of it goes
      unnoticed. */
  lemma LastByteChange(e: Endian, p: seq<byte>, x: byte)
    requires |p| >= HEADERS && |p| >= TotalLength(p) > HEADERS && UdpSumOk(e, p) && WordAt(e, p, 26) != 0
    requires TotalLength(p) % 2 == 1
    ensures UdpSumOk(e, p[TotalLength(p) - 1 := x]) <==> x == p[TotalLength(p) - 1]
  {
    hide Checksum, Store;
    var n := TotalLength(p);
    var q := p[n - 1 := x];
    assert q[12..16] == p[12..16] && q[16..20] == p[16..20];
    var pseudo := PseudoHeader(p[12..16], p[16..20], p[9], UdpLength(p));
    var s, t := pseudo + Store(e, p[IP_HEADER..n], 6, 0), pseudo + Store(e, q[IP_HEADER..n], 6, 0);
    LastByteInUdp(e, pseudo, p, n, x);
    SingleByteChange(e, s, t);
  }

  lemma LastByteInUdp(e: Endian, h: seq<byte>, p: seq<byte>, n: nat, x: byte)
    requires |h| == 12 && HEADERS < n <= |p| && n % 2 == 1
    ensures
      var s, t := h + Store(e, p[IP_HEADER..n], 6, 0), h + Store(e, p[n - 1 := x][IP_HEADER..n], 6, 0);
      && |s| == |t| == 12 + n - IP_HEADER && s[|s| - 1] == p[n - 1] && t[|s| - 1] == x
      && s[..|s| - 1] == t[..|s| - 1]
  {}

  lemma SingleByteChange(e: Endian, s: seq<byte>, t: seq<byte>)
    requires |s| == |t| && |s| % 2 == 1 && s[..|s| - 1] == t[..|s| - 1]
    ensures Checksum(e, s) == Checksum(e, t) <==> s[|s| - 1] == t[|s| - 1]
  {
    hide WordSum, OnesAdd;
    var n := |s| - 1;
    LastByte(e, s);
    LastByte(e, t);
    FoldedAdd(WordSum(e, s[..n]), HostWord(e, s[n], 0));
    FoldedAdd(WordSum(e, s[..n]), HostWord(e, t[n], 0));
    OnesAddCancels(Folded(WordSum(e, s[..n])), HostWord(e, s[n], 0), HostWord(e, t[n], 0));
  }

  /** An accepted datagram that carries a UDP checksum is ignored once one word behind its IP
      header is damaged, up to the pair of zeros; only the clearing of the checksum goes through. */
  lemma DamagedDataIgnored(e: Endian, p: seq<byte>, payload: seq<byte>, k: nat, w: word)
    requires |payload| >= DHCP_SIZE && HEADERS <= |p| <= HEADERS + |payload|
    requires Receive(e, p, payload).0.Accepted? && WordAt(e, p, 26) != 0
    requires k % 2 == 0 && IP_HEADER <= k && k + 1 < TotalLength(p) && w != WordAt(e, p, k)
    requires k == 26 ==> w != 0
    requires k == 20 || k >= HEADERS ==> !TwoZeros(w, WordAt(e, p, k))
    ensures Receive(e, Store(e, p, k, w), payload) == (Ignored, payload)
  {
    hide UdpSumOk, IpSumOk;
    var q := Store(e, p, k, w);
    if k == 22 || k == 24 {
      NetWordChange(e, p, k, w);
    } else if k == 26 {
      ChecksumFieldChange(e, p, w);
    } else {
      DataWordChange(e, p, k, w);
    }
  }

  lemma NetWordChange(e: Endian, p: seq<byte>, k: nat, w: word)
    requires k + 1 < |p| && w != WordAt(e, p, k)
    ensures NetWord(Store(e, p, k, w)[k], Store(e, p, k, w)[k + 1]) != NetWord(p[k], p[k + 1])
  {}

  /** With its checksum cleared an accepted datagram is still accepted, and is then without
      protection. */
  lemma ClearedChecksumAccepted(e: Endian, p: seq<byte>, payload: seq<byte>)
    requires |payload| >= DHCP_SIZE && HEADERS <= |p| <= HEADERS + |payload|
    requires Receive(e, p, payload).0.Accepted?
    ensures Receive(e, Store(e, p, 26, 0), payload) == Receive(e, p, payload)
  {
    var n, q := TotalLength(p), Store(e, p, 26, 0);
    assert q[..IP_HEADER] == p[..IP_HEADER];
    assert q[HEADERS..n] == p[HEADERS..n];
  }

  /** Damage to its left-over byte never goes through. */
  lemma DamagedLastByteIgnored(e: Endian, p: seq<byte>, payload: seq<byte>, x: byte)
    requires |payload| >= DHCP_SIZE && HEADERS <= |p| <= HEADERS + |payload|
    requires Receive(e, p, payload).0.Accepted? && WordAt(e, p, 26) != 0
    requires TotalLength(p) % 2 == 1 && TotalLength(p) > HEADERS && x != p[TotalLength(p) - 1]
    ensures Receive(e, p[TotalLength(p) - 1 := x], payload) == (Ignored, payload)
  {
    LastByteChange(e, p, x);
  }
}
