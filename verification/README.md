# Proofs about the network programs' algorithmic cores

The repository is a collection of Linux network programs. Most of their code calls the socket
interface; this project models the parts that compute, in place and step by step, and proves what
they are for. Each C routine that works on a buffer or on shared variables is a Dafny `method` over
an `array` or a `class`, proved equal to a function of its inputs; the laws are lemmas about those
functions. Programs with two threads are also state machines whose runs are arbitrary sequences of
steps, so that a law holds for every interleaving.

| file | content |
|---|---|
| `Bytes.dfy`, `CStrings.dfy`, `Options.dfy` | 16-bit words in memory, NUL-terminated strings, `Option` |
| `OnesComplement.dfy` | the Internet checksum as arithmetic (RFC 1071) |
| `ChecksumCode.dfy` | the three checksum routines |
| `DhcpPacket.dfy`, `DhcpReceive.dfy` | the raw-socket DHCP client: building and taking apart datagrams |
| `DhcpStandards.dfy` | how far it keeps to RFC 791 and RFC 768 |
| `IcmpEcho.dfy` | echo requests and replies (RFC 792) |
| `PingTable.dfy`, `PingRuns.dfy` | the table of outstanding echo requests; every interleaving of its two threads |
| `Uri.dfy` | percent-decoding and path cleaning in place (RFC 3986) |
| `Headers.dfy`, `HttpHeaders.dfy`, `HeaderLaws.dfy` | the header parser, the server's header table, print and parse |
| `Request.dfy`, `RequestLaws.dfy`, `RequestFaults.dfy`, `RequestStatus.dfy` | the request-line parser; whole requests (RFC 2616); when it leaves its buffer; which status a request gets |
| `SlotTable.dfy` | the select server's table of connections |
| `Handshake.dfy` | the start of worker threads |
| `LineReader.dfy` | the reader of the configuration file |

## How the C program is represented

- Memory is a sequence of bytes. The byte order of the machine is a parameter, `Endian`, and every
  word read through a `uint16_t *` goes through it. A structure in memory is its bytes at the
  offsets of the declaration; addresses and payloads are memory images.
- `struct iphdr` declares `ihl` before `version`, so the first header byte is 0x45 on a
  little-endian and 0x54 on a big-endian machine; `VersionByte` says so.
- The size of the options' slack (`CONFIG_UDHCPC_SLACK_FOR_BUGGY_SERVERS`) is a parameter.
- The 32-bit accumulator is the type `int32`; a `short` counter goes through `ToShort`, a
  conversion to `int` through `ToInt`, C's division through `CDiv`. `UdhcpChecksum` and `InChsum`
  demand that the sum of the words fits the accumulator. No buffer of `n` bytes overflows it if and
  only if `n` is at most 65536, or is 65537 on a little-endian machine (`AccumulatorFitsExactly`).
- Reads from a socket or a file, clock readings, the set of ready descriptors, the order of thread
  steps and the file system are inputs.
- The sources `SHTTPD_18/shttpd_request.c` and `SHTTPD_18/shttpd_worker.c` contain misspelt tokens
  (`whiel`, `foude`, `date_to>epoch`, `S_SIDIR`, a missing `;` in the `for` of line 96) and, at
  line 188 of the first, a cast `(char)p` that would truncate the pointer to the URI; they are read
  as the tokens evidently meant, the cast as `(char *)p`.
- Where C gives no meaning to what happens, the model has an outcome of its own: `Fault` when a
  pointer leaves the request buffer, `CopyFault` when the length passed to `memcpy` is negative.

## Where the code falls short of its purpose

These are results of the proofs, each with the exact condition under which the code does what it
should.

- **ICMP checksum of odd lengths.** `icmp_cksum` counts a left-over byte as the high half of its
  word. On a little-endian machine that is the Internet checksum if and only if that byte is 0
  (`IcmpChecksumIsInternetChecksum`). A request still verifies itself under the same routine.
- **Process numbers.** `icmp_unpack` compares a 16-bit identifier with the whole process number, so
  a reply is recognised if and only if that number lies in 0..65535 (`ReplyRecognized`).
- **The ping table.** A step keeps the table's invariant if and only if it is `Allowed`
  (`StepKeepsInvariant`); each of the three guards has an input and a consequence.
  A claim must not take, for another number, the slot the receiver has just found: a duplicate reply
  brings that about (`ReclaimHappens`), and a request is lost from the table
  (`ReclaimedSlotIsLost`). A transmission may fail only if no slot was claimed for it: else the next
  claim leaves two flagged slots with one number (`FailedSendDuplicates`), and a reply may be timed
  from the wrong one (`FailedSendMistimes`). The `short` counter must not wrap: it does after 32768
  requests, however well they are answered (`CounterWraps`), and the slots claimed while it is
  negative are found by no reply (`WrappedSlotIsLost`). Without claims inside the handling of a reply, without
  failures and with fewer than 32768 requests, every interleaving is good (`WholeRepliesAreGood`).
- **Ping statistics.** They make sense if no request is answered twice (`StatisticsMakeSense`). One
  duplicate reply yields two received of one sent and a loss of -100 percent (`DuplicateIsCounted`).
- **The fill counter** of `icmp_pack` has 8 bits: the loop ends if and only if the length is at most
  255 (`FillEnds`); the program packs 64.
- **Path cleaning** keeps dots at the very beginning of a path, so a path is free of ".." segments
  if and only if it does not begin with one (`CleanedNeverClimbs`).
- **The select server's counter.** `memset(connect_host, -1, CLIENTNUM)` clears `CLIENTNUM` bytes,
  a quarter of the table: the counter is right if and only if the fill covers the whole table, and
  as written it stays 768 short (`CounterIsRight`, `CounterFallsShort`).
- **Worker start.** The result of `pthread_create` is ignored: the handshake is kept by every step
  but a failed creation (`StepKeepsInvariant`), after which the call never returns
  (`FailedCreationSticks`); a call can still return if and only if it is not in that state
  (`ReturnsUnlessStuck`).
- **UDP checksum of zero.** RFC 768 transmits a computed zero as all ones, zero meaning that there
  is no checksum. The client stores the zero, so that such a packet leaves unprotected; some first
  word of the data makes any packet one (`ComputedZeroHappens`). It refuses the all ones of others:
  its test is that of RFC 768 but for this case (`SumTestVersusStandard`).
- **Big-endian machines.** The order of the bit-fields makes the first byte 0x54 there. What is sent
  is the datagram of RFC 791 and RFC 768 if and only if the machine is little-endian and the
  computed UDP checksum is not zero (`SentIsStandard`); a datagram of the standards is accepted if
  and only if, moreover, it goes to port 68 and carries the cookie (`StandardAcceptedExactly`).
  Machines of different byte order ignore each other (`OtherByteOrderIgnored`).
- **Receiving a datagram.** A packet that passes every test (its size, the protocol, the version
  byte, port 68, both checksums) although its total length is below 28 reaches the copy with a
  negative length, the outcome `CopyFault`; the test of the lengths compares the UDP length with the
  total length less 20 modulo 65536 only (`CopyFaultExactly`). For every total length below 28, and
  for no other, there is such a packet (`ShortClaimFaults`, `CopyFaultLengths`).
- **Parsing a request** leaves the request buffer, the outcome `Fault`, exactly in the cases of
  `FaultsExactly`. Ordinary requests are among them, the buffer being zeroed before each read: a
  first line ended by a bare LF instead of CRLF (`BareFeedFaults`), a first line without a version
  (`NoVersionFaults`), and a request without a line feed or beginning with one
  (`NoLineAlwaysFaults`).

## Model

| member | source | states |
|---|---|---|
| OnesComplement.FoldStep | LinuxCodeBak/Code/11/dhcp_c.c:26-27 | one round of carrying the high half into the low half leaves the folded value alone, for every sum |
| OnesComplement.FoldedClosedForm | LinuxCodeBak/Code/11/dhcp_c.c:25-29 | folding to the end yields 0 for 0 and else the residue modulo 65535 in 1..65535 |
| OnesComplement.TwoFoldsSuffice | LinuxCode/13/13.6.10/ping.c:163-166 | for every sum below 2^31 two fixed folds leave the same low 16 bits as the loop |
| OnesComplement.ChecksumIsOnesComplement | LinuxCodeBak/Code/11/dhcp_c.c:3-30 | deferring all carries to the end gives the complement of the end-around-carry sum of RFC 1071, for every buffer |
| OnesComplement.AccumulatorFitsExactly | LinuxCodeBak/Code/11/dhcp_c.c:8-24 | for every length: no buffer of that length overflows the signed 32-bit accumulator exactly if the length is at most 65536, or 65537 on a little-endian machine |
| OnesComplement.ChecksumByteOrder | LinuxCodeBak/Code/11/dhcp_c.c:11-29 | reading the bytes in the other byte order swaps the bytes of the checksum, odd lengths included, so its memory image is the same on every machine (section 2(B) of RFC 1071) |
| OnesComplement.WholeSumTest | LinuxCodeBak/Code/11/dhcp_c.c:3-30 | the sum over a buffer with its checksum in place is 0 exactly for the checksum of the cleared buffer, up to the second zero of ones' complement arithmetic (section 1 of RFC 1071) |
| OnesComplement.SingleWordChange | LinuxCodeBak/Code/11/dhcp_c.c:142-148 | replacing one word leaves the checksum alone exactly if it is the same word, or 0x0000 and 0xFFFF are traded while another word is not zero |
| ChecksumCode.UdhcpChecksum | LinuxCodeBak/Code/11/dhcp_c.c:3-30 | the summing and folding loops compute the Internet checksum of any number of bytes, in either byte order, without overflow |
| ChecksumCode.InChsum | LinuxCodeBak/Code/13/ping.c:16-36 | computes the same function as the DHCP client's routine, odd lengths included |
| ChecksumCode.FoldTwice | LinuxCode/13/13.6.10/ping.c:163-166 | two folds and a complement, on the 32-bit accumulator, without overflow |
| ChecksumCode.IcmpCksum | LinuxCode/13/13.6.10/ping.c:148-167 | sums the first `len` modulo 65536 bytes, since its loop guard masks 16 bits, with a left-over byte counted high |
| ChecksumCode.IcmpChecksumIsInternetChecksum | LinuxCode/13/13.6.10/ping.c:158-162 | that is the Internet checksum exactly on even lengths, on big-endian machines, or when the left-over byte is 0 |
| DhcpPacket.OverlayIsPseudoHeader | LinuxCodeBak/Code/11/dhcp_c.c:68-77 | the checksum over the packet with its half-filled IP header is the one RFC 768 computes over pseudo-header, UDP header and data |
| DhcpPacket.FillForUdpSum | LinuxCodeBak/Code/11/dhcp_c.c:54-76 | the assignments into the zeroed packet build exactly the overlay, the UDP header and the message |
| DhcpPacket.StoreUdpCheck | LinuxCodeBak/Code/11/dhcp_c.c:77 | storing the checksum changes nothing else |
| DhcpPacket.FinishIpHeader | LinuxCodeBak/Code/11/dhcp_c.c:78-83 | restores a complete IP header over the overlay, carrying its own checksum, and leaves the rest alone |
| DhcpPacket.SendRawPacket | LinuxCodeBak/Code/11/dhcp_c.c:33-90 | what is sent is the first 548 bytes of the message behind complete IP and UDP headers, ports truncated to 16 bits, both checksums as computed |
| DhcpReceive.VerifyFields | LinuxCodeBak/Code/11/dhcp_c.c:131-140 | decides the sanity checks: protocol, version byte, port, and the two lengths modulo 65536 |
| DhcpReceive.VerifyIpSum | LinuxCodeBak/Code/11/dhcp_c.c:142-148 | decides whether the header carries its own checksum, and clears the field |
| DhcpReceive.LayOverlay | LinuxCodeBak/Code/11/dhcp_c.c:150-155 | turns a received packet into its scratch form: the pseudo-header over the IP header, the UDP checksum cleared, all else kept |
| DhcpReceive.ScratchIsSendersBuffer | LinuxCodeBak/Code/11/dhcp_c.c:150-155 | for a datagram sent, the scratch form is byte for byte the buffer the sender summed |
| DhcpReceive.VerifyUdpSum | LinuxCodeBak/Code/11/dhcp_c.c:150-159 | decides whether the UDP checksum is zero or equal to the one computed over pseudo-header, UDP header and data, and leaves the data alone |
| DhcpReceive.ScratchSum | LinuxCodeBak/Code/11/dhcp_c.c:150-156 | the sum over the overlaid packet is the RFC 768 sum of the packet as received |
| DhcpReceive.CopyOut | LinuxCodeBak/Code/11/dhcp_c.c:161-168 | copies the data over the start of the caller's buffer and looks for the cookie in the result |
| DhcpReceive.RecvRawPacket | LinuxCodeBak/Code/11/dhcp_c.c:103-169 | outcome and final message buffer for every input, as one declarative decision: read error, ignored, negative copy length, accepted |
| DhcpReceive.ReceivedExactly | LinuxCodeBak/Code/11/dhcp_c.c:103-169 | for every packet, field by field: which tests it has to pass, that the result is its total length less 28 if the cookie is in place after the copy, and that the copy is all the data over the start of the buffer and nothing more |
| DhcpReceive.CopyFaultExactly | LinuxCodeBak/Code/11/dhcp_c.c:117-161 | the copy gets a negative length exactly for packets that pass every test with a total length below 28; none of at least 28 does |
| DhcpReceive.ShortClaimFaults | LinuxCodeBak/Code/11/dhcp_c.c:131-161 | for every total length below 28, all addresses and every source port, a packet of bare headers that does |
| DhcpReceive.CopyFaultLengths | LinuxCodeBak/Code/11/dhcp_c.c:129-161 | some packet of a total length has that outcome exactly if the length is below 28 |
| DhcpReceive.SentIsReceived | LinuxCodeBak/Code/11/dhcp_c.c:103-169 | round trip between machines of one byte order: every datagram sent, with anything read behind it and also with a UDP checksum of 0, delivers exactly the bytes sent; only a foreign port or cookie is refused |
| DhcpReceive.ExtraBytesIgnored | LinuxCodeBak/Code/11/dhcp_c.c:128-129 | bytes behind the total length never change the result |
| DhcpReceive.HeaderWordChange | LinuxCodeBak/Code/11/dhcp_c.c:142-148 | exactly which one-word changes of the IP header pass its checksum test: none but trading 0x0000 and 0xFFFF outside the checksum field |
| DhcpReceive.DamagedHeaderIgnored | LinuxCodeBak/Code/11/dhcp_c.c:117-148 | a datagram with one header word damaged, other than by such a trade, is ignored and leaves the message buffer alone |
| DhcpReceive.DataWordChange | LinuxCodeBak/Code/11/dhcp_c.c:150-159 | exactly which changes of the source port, the destination port or a data word pass the UDP test: none but trading the two zeros |
| DhcpReceive.ChecksumFieldChange | LinuxCodeBak/Code/11/dhcp_c.c:154-156 | in the checksum field the test notices every change but a clearing |
| DhcpReceive.LastByteChange | LinuxCodeBak/Code/11/dhcp_c.c:17-24 | it notices every change of a left-over byte |
| DhcpReceive.DamagedDataIgnored | LinuxCodeBak/Code/11/dhcp_c.c:131-159 | an accepted datagram that carries a UDP checksum is ignored once any word behind the IP header is damaged: ports, length, checksum or data, other than by such a trade or by clearing the checksum |
| DhcpReceive.DamagedLastByteIgnored | LinuxCodeBak/Code/11/dhcp_c.c:150-159 | so it is once its left-over byte is damaged, without exception |
| DhcpReceive.ClearedChecksumAccepted | LinuxCodeBak/Code/11/dhcp_c.c:154-156 | an accepted datagram with its UDP checksum cleared is accepted with the same result |
| DhcpStandards.SentIsStandard | LinuxCodeBak/Code/11/dhcp_c.c:68-89 | what is sent is the datagram of RFC 791 and RFC 768, which are written down without a host byte order, exactly on a little-endian machine and when the computed UDP checksum is not zero |
| DhcpStandards.SentPacket | LinuxCodeBak/Code/11/dhcp_c.c:68-89 | what is sent, byte by byte: both checksums in memory as the standards lay them out, the UDP checksum as computed, the first byte 0x45 or 0x54 |
| DhcpStandards.ComputedZeroHappens | LinuxCodeBak/Code/11/dhcp_c.c:77 | for all addresses, ports and data some first word makes the computed checksum zero |
| DhcpStandards.StandardReceived | LinuxCodeBak/Code/11/dhcp_c.c:103-169 | a datagram of the standards with data of any length, and anything read behind it, is copied out exactly on a little-endian machine, at port 68, with a computed checksum that is not zero, and its length is the result if the cookie is in place; else it is ignored |
| DhcpStandards.StandardAcceptedExactly | LinuxCodeBak/Code/11/dhcp_c.c:103-169 | a message of 240 bytes or more comes through whole, with its own length as the result, exactly if it also carries the cookie |
| DhcpStandards.OtherByteOrderIgnored | LinuxCodeBak/Code/11/dhcp_c.c:131-140 | what a machine of the other byte order sent is ignored |
| DhcpStandards.SumTestVersusStandard | LinuxCodeBak/Code/11/dhcp_c.c:154-159 | the client's UDP test is the one of RFC 768 except that it refuses all ones standing for a computed zero |
| DhcpStandards.IpTestVersusStandard | LinuxCodeBak/Code/11/dhcp_c.c:142-148 | the test of the IP header is the sum over all of it, with the same kind of exception |
| DhcpStandards.ShortSumTest | LinuxCodeBak/Code/11/dhcp_c.c:150-159 | which bytes are summed when the total length does not cover the headers |
| IcmpEcho.IcmpPack | LinuxCode/13/13.6.10/ping.c:170-183 | the fill loop with its 8-bit counter terminates and leaves exactly the echo request in the first 8 + length bytes and nothing else changed |
| IcmpEcho.FillEnds | LinuxCode/13/13.6.10/ping.c:172-180 | the 8-bit fill counter reaches the length exactly if it is at most 255 |
| IcmpEcho.EchoRequestBytes | LinuxCode/13/13.6.10/ping.c:172-182 | the request byte by byte, as RFC 792 lays it out |
| IcmpEcho.IcmpWholeSumTest | LinuxCode/13/13.6.10/ping.c:148-167 | the "sum everything" test for this routine, odd lengths included |
| IcmpEcho.RequestVerifiesItself | LinuxCode/13/13.6.10/ping.c:170-183 | summing any packed request with its checksum in place gives 0, for every number, process and length from 4 to 255 |
| IcmpEcho.ReplyRecognized | LinuxCode/13/13.6.10/ping.c:186-209 | a reply that echoes identifier and number is recognised as the reply to that number exactly when the process number fits 16 bits |
| IcmpEcho.RecognizedExactly | LinuxCode/13/13.6.10/ping.c:193-208 | exactly the messages of eight bytes or more with type 0 and this process's identifier are recognised, with the number they carry |
| IcmpEcho.OwnRequestIgnored | LinuxCode/13/13.6.10/ping.c:203-235 | the program's own request, read back, is no reply |
| IcmpEcho.ForeignReplyIgnored | LinuxCode/13/13.6.10/ping.c:203-235 | nor is a reply to another process |
| PingTable.FirstFree | LinuxCode/13/13.6.10/ping.c:350-361 | the first slot that is not flagged, or none |
| PingTable.FirstNumbered | LinuxCode/13/13.6.10/ping.c:362-373 | the first slot with the number, whatever its flag, or none |
| PingTable.Ping.FindPacket | LinuxCode/13/13.6.10/ping.c:345-375 | both search loops against these specifications |
| PingTable.Ping.Claim | LinuxCode/13/13.6.10/ping.c:273-279 | takes the first free slot for the next number, or leaves the table alone when it is full |
| PingTable.Ping.AfterSend | LinuxCode/13/13.6.10/ping.c:285-290 | counts a request that was sent, as a `short`, and nothing else |
| PingTable.Ping.Settle | LinuxCode/13/13.6.10/ping.c:211-230 | clears one flag, counts one reply, computes the round-trip time from the slot's own send time |
| PingTable.Ping.Unpack | LinuxCode/13/13.6.10/ping.c:186-237 | table, status and round-trip time for every packet read are those of the function `UnpackIn` |
| PingTable.UnpackExactly | LinuxCode/13/13.6.10/ping.c:186-237 | exactly which packets change the table, and that they clear the flag of the first slot with their number and count one, nothing else |
| PingTable.OwnRequestChangesNothing | LinuxCode/13/13.6.10/ping.c:203-235 | the program's own request, read back, changes nothing |
| PingTable.ForeignReplyChangesNothing | LinuxCode/13/13.6.10/ping.c:203-235 | nor does a reply to another process |
| PingTable.RoundTripIsFloor | LinuxCode/13/13.6.10/ping.c:246-260 | the borrow is right, and the printed time is the true microsecond difference over 1000 rounded down exactly when that fits an `int` |
| PingTable.ToIntWraps | LinuxCode/13/13.6.10/ping.c:215 | any other printed time is off by a multiple of 2^32 |
| PingTable.CDivTruncates | LinuxCode/13/13.6.10/ping.c:385 | the loss percentage is rounded toward zero, also when it is negative |
| PingRuns.StepKeepsInvariant | LinuxCode/13/13.6.10/ping.c:263-294 | a step of either thread keeps the table's invariant exactly if it is allowed |
| PingRuns.OwnSlotFound | LinuxCode/13/13.6.10/ping.c:345-375 | although the search ignores `flag`, it finds for an outstanding request the slot claimed for it, with its send time |
| PingRuns.ReachableTable | LinuxCode/13/13.6.10/ping.c:263-340 | after every good run numbers are distinct, every outstanding request is found in its own slot, and the flagged slots, at most 128, number the tracked requests not yet answered |
| PingRuns.WholeRepliesAreGood | LinuxCode/13/13.6.10/ping.c:263-340 | every interleaving of claims, counts and whole replies with fewer than 32768 requests is such a run |
| PingRuns.OutstandingPersists | LinuxCode/13/13.6.10/ping.c:211-290 | no allowed step but the settling of its own reply touches an outstanding request |
| PingRuns.TracksOneHundredAndTwentyEight | LinuxCode/13/13.6.10/ping.c:350-361 | 128 unanswered requests are tracked, in the order of the slots, and no more |
| PingRuns.SettleInTime | LinuxCode/13/13.6.10/ping.c:208-214 | the reply to an outstanding request clears that request's slot and no other |
| PingRuns.SettleLate | LinuxCode/13/13.6.10/ping.c:208-214 | a duplicate, late or untracked reply changes no slot |
| PingRuns.ReclaimedSlotIsLost | LinuxCode/13/13.6.10/ping.c:208-279 | a claim that is not allowed leaves the new request unanswered without a flagged slot |
| PingRuns.ReclaimHappens | LinuxCode/13/13.6.10/ping.c:208-279 | a concrete good run after which such a claim is possible |
| PingRuns.FailedSendDuplicates | LinuxCode/13/13.6.10/ping.c:273-289 | after a failed transmission with a claimed slot the next claim leaves two flagged slots with the same number and different send times |
| PingRuns.FailedSendMistimes | LinuxCode/13/13.6.10/ping.c:273-289 | a concrete run after which the reply to the only request sent is timed from the transmission that failed |
| PingRuns.WrappedSlotIsLost | LinuxCode/13/13.6.10/ping.c:276-290 | once the counter is negative, no sequence number of a reply finds a slot just claimed |
| PingRuns.CounterWraps | LinuxCode/13/13.6.10/ping.c:290 | it is negative, with a slot free, after 32768 requests each answered at once |
| PingRuns.RunStaysBalanced | LinuxCode/13/13.6.10/ping.c:230-290 | if no request is answered twice, replies counted never outnumber the requests answered |
| PingRuns.CountersCount | LinuxCode/13/13.6.10/ping.c:230-290 | in every interleaving the counters number the transmissions that succeeded and the replies settled, while a `short` holds them |
| PingRuns.StatisticsMakeSense | LinuxCode/13/13.6.10/ping.c:378-387 | then received is at most sent and the loss is a percentage from 0 to 100, rounded down |
| PingRuns.DuplicateIsCounted | LinuxCode/13/13.6.10/ping.c:208-230 | a concrete run with a duplicate reply after which the loss is -100 percent |
| Uri.UriDecode | SHTTPD_18/shttpd_uri.c:19-52 | also with source and destination the same buffer, leaves the one-pass decoding of the original bytes, cut to the destination, NUL-terminated, and returns its length |
| Uri.DecodeAt | SHTTPD_18/shttpd_uri.c:26-46 | one round consumes exactly one escape or character of the original text; an escape never reaches past the end |
| Uri.EscapeDecodes | SHTTPD_18/shttpd_uri.c:28-36 | an escape, its digits in either case, stands for the character whose code they write, high digit first |
| Uri.PlainDecodes | SHTTPD_18/shttpd_uri.c:37-46 | anything else stands for itself, a '%' without two hexadecimal digits included |
| Uri.EncodeDecodes | SHTTPD_18/shttpd_uri.c:24-47 | every string comes back from an encoder that writes each character raw or with the digits of a table, mixing both cases |
| Uri.DecodeInvertsEncode | SHTTPD_18/shttpd_uri.c:24-47 | a text encodes a string, each character raw or as an escape in either case, exactly if it is well-formed and decodes to that string; a decoded '%' is never decoded again |
| Uri.RemoveDoubleDots | SHTTPD_18/shttpd_uri.c:3-17 | the in-place loop leaves the cleaned path, although it reads `s[-1]` from the buffer it overwrites |
| Uri.SkipRun | SHTTPD_18/shttpd_uri.c:11-13 | the inner loop skips exactly the run behind a separator |
| Uri.CleanIsFilter | SHTTPD_18/shttpd_uri.c:3-17 | cleaning keeps, in order, exactly the characters that lie in no run of dots and separators behind a separator |
| Uri.CleanFixpoint | SHTTPD_18/shttpd_uri.c:3-17 | no separator is followed by a dot or separator; cleaning is idempotent and the identity exactly on such paths |
| Uri.CleanedNeverClimbs | SHTTPD_18/shttpd_uri.c:3-17 | a cleaned path has a ".." segment exactly at its beginning, if the uncleaned path begins with one |
| Uri.UriParse | SHTTPD_18/shttpd_uri.c:54-58 | decodes and cleans the string in place |
| Uri.ParsedUriNeverClimbs | SHTTPD_18/shttpd_uri.c:54-58 | whatever its escapes, a URI that decodes to an absolute path has no ".." segment left |
| Headers.FindEndOfLine | SHTTPD_18/shttpd_request.c:95-98 | the line feed, or the end of the text |
| Headers.LookUp | SHTTPD_18/shttpd_request.c:100-105 | the first table entry that matches in any letter case, or the end of the table |
| Headers.StoreHeader | SHTTPD_18/shttpd_request.c:107-125 | assigns one header: a slice without its trailing CR, or the position of a number or date |
| Headers.ParseLine | SHTTPD_18/shttpd_request.c:95-127 | one line's effect on the parsed headers |
| Headers.HeaderParse | SHTTPD_18/shttpd_request.c:86-133 | the loop terminates with the effects of all lines, for every text |
| Headers.MatchStaysInLine | SHTTPD_18/shttpd_request.c:101-114 | a matching name ends within its line, so the slice never has a negative length |
| Headers.LinesAreOrdered | SHTTPD_18/shttpd_request.c:93-127 | the lines lie within the text, in order, without overlap |
| Headers.ParseSplitsLines | SHTTPD_18/shttpd_request.c:93-129 | the parser is "split at line feeds, then carry out each line" |
| Headers.LastMatchWins | SHTTPD_18/shttpd_request.c:107-125 | a header has the value of the last line naming it, or what it had |
| HeaderLaws.ParseStaysTidy | SHTTPD_18/shttpd_request.c:110-117 | all stored slices lie in the text, hold no line feed and are pairwise disjoint |
| HeaderLaws.FindHeaderIs | SHTTPD_18/shttpd_request.c:101-105 | in a table without ambiguous names the entry found is the only one that matches |
| HeaderLaws.EffectExactly | SHTTPD_18/shttpd_request.c:101-124 | for any line: nothing if no name of the table begins it with something behind, else what lies behind the name up to the line feed or the end, but for one CR there |
| HeaderLaws.BareNameIgnored | SHTTPD_18/shttpd_request.c:102 | a name with nothing behind it, at the end of the text, is not recognised |
| HeaderLaws.LetterCases | SHTTPD_18/shttpd_request.c:102 | which letters are alike |
| HeaderLaws.ParseOfPrint | SHTTPD_18/shttpd_request.c:86-133 | parsing printed lines carries out, in order, the assignments they were printed from |
| HeaderLaws.PrintedHeadersParseBack | SHTTPD_18/shttpd_request.c:86-133 | round trip: the last line printed for a header, its name in any letter case, ended by CRLF, by a bare line feed or by the text, is stored byte for byte; others keep their value |
| HttpHeaders.HttpTableValid | SHTTPD_18/shttpd_request.c:8-22 | no name of the server's table is, in any letter case, the beginning of another, and none holds a line feed |
| HttpHeaders.HttpTableIs | SHTTPD_18/shttpd_request.c:8-22 | the table, entry by entry |
| Request.Connection.JumpTo | SHTTPD_18/shttpd_request.c:136 | the next occurrence of the character |
| Request.Connection.JumpOver | SHTTPD_18/shttpd_request.c:135 | the next other character |
| Request.Connection.ClearReturn | SHTTPD_18/shttpd_request.c:152-158 | clears a CR before the first line feed and nothing else; fails when there is no line feed or nothing before it |
| Request.Connection.LookUpMethod | SHTTPD_18/shttpd_request.c:164-173 | the first method whose name begins the text |
| Request.Connection.ParseMethod | SHTTPD_18/shttpd_request.c:160-184 | the method stage, or status 400 |
| Request.Connection.ParseUri | SHTTPD_18/shttpd_request.c:185-209 | the URI stage with its NUL, or status 404 or 403 |
| Request.Connection.ParseVersion | SHTTPD_18/shttpd_request.c:211-228 | the version stage, or status 505 |
| Request.Connection.RequestParse | SHTTPD_18/shttpd_request.c:138-235 | outcome, buffer and parsed request for every input; after all pointer moves the length kept beside the pointer still ends the request |
| RequestLaws.RenderedRequestAccepted | SHTTPD_18/shttpd_request.c:138-235 | a rendered request, whatever follows it, gets 200, 403 or 404 by its file alone, and the header parser receives exactly its rest |
| RequestLaws.RequestRoundTrip | SHTTPD_18/shttpd_request.c:138-235 | every method, URI and version comes out as rendered, and every header as its last line says |
| RequestLaws.AnyRequest | SHTTPD_18/shttpd_request.c:138-235 | whatever the request, only CRs and spaces are overwritten, by NULs, and what is accepted has a method, a supported version and a file that is there |
| RequestLaws.FindMethodIs | SHTTPD_18/shttpd.c:14-21 | the method found is the one the text begins with: no name in the table can hide another |
| RequestStatus.LineAnswered | SHTTPD_18/shttpd_request.c:154-229 | for every line of method, URI and CRLF, with any blanks and any text for a version: 404 and 403 by the file first, then 505 by the version, else 200 with every field, and the header parser gets all that follows the CR |
| RequestStatus.VersionAnswered | SHTTPD_18/shttpd_request.c:213-221 | for every pair of numbers: 200 for versions 0.9, 1.0 and 1.1, 505 for any other |
| RequestStatus.ScanVersionIs | SHTTPD_18/shttpd_request.c:213-215 | two numbers of any length with a dot are read as what they write, too large ones saturated |
| RequestStatus.ScanNumberIs | SHTTPD_18/shttpd_request.c:213-215 | a conversion skips blanks, takes a sign, and negates modulo 2^64 behind a minus |
| RequestStatus.NumbersMissing | SHTTPD_18/shttpd_request.c:213-215 | a missing number leaves its field, and those behind it, as it was |
| RequestStatus.MajorAlone | SHTTPD_18/shttpd_request.c:213-215 | so does a missing dot |
| RequestStatus.BadMethodExactly | SHTTPD_18/shttpd_request.c:160-177 | 400 exactly for a request that has a first line and begins, behind its blanks, with none of the five methods |
| RequestStatus.PathBelowRoot | SHTTPD_18/shttpd_request.c:189 | the path looked at is root, slash and URI, cut to 16383 characters |
| RequestFaults.FaultsExactly | SHTTPD_18/shttpd_request.c:154-226 | for every request: a pointer leaves the buffer exactly if there is no line, no space behind the method, or, where all before is accepted, no NUL with something behind it |
| RequestFaults.BareFeedFaults | SHTTPD_18/shttpd_request.c:154-226 | with method, URI and supported version in place, a file that is there and a zeroed buffer behind any NUL-free text: a line ended by LF faults, one ended by CRLF gets 200 |
| RequestFaults.NoVersionFaults | SHTTPD_18/shttpd_request.c:185 | a first line of method and URI alone always faults |
| RequestFaults.NoLineAlwaysFaults | SHTTPD_18/shttpd_request.c:154-156 | a request without a line feed, or beginning with one, always faults |
| RequestFaults.BareFeedHappens | SHTTPD_18/shttpd_request.c:225-226 | an input: `GET / HTTP/1.1` and a bare line feed |
| RequestFaults.NoVersionHappens | SHTTPD_18/shttpd_request.c:185 | an input: `GET /` and CRLF |
| RequestFaults.EmptyLineHappens | SHTTPD_18/shttpd_request.c:154-156 | an input: a line feed alone |
| SlotTable.Server.Connect | LinuxCode/14/14.4.2/server.c:105-117 | the first free slot takes the descriptor and the counter goes up, or nothing changes |
| SlotTable.Server.Serve | LinuxCode/14/14.4.2/server.c:57-86 | exactly the slots with a ready descriptor are freed, and the counter goes down by their number |
| SlotTable.StepLaw | LinuxCode/14/14.4.2/server.c:33-118 | every step of either thread keeps occupied slots less the counter, corrected for the update in flight; a stored failed accept lowers it by one |
| SlotTable.DriftConserved | LinuxCode/14/14.4.2/server.c:33-118 | over every interleaving that difference changes by the stored failures alone |
| SlotTable.SlotChanges | LinuxCode/14/14.4.2/server.c:60-117 | a slot changes only when a free one is filled or one with a ready descriptor is freed |
| SlotTable.StoredUntilFreed | LinuxCode/14/14.4.2/server.c:60-117 | over every run an accepted descriptor stays in its slot until the request thread frees it, having found it ready |
| SlotTable.PassHandlesAll | LinuxCode/14/14.4.2/server.c:60-85 | in every interleaving a pass that ends looked at every slot and freed each one that was ready when it did |
| SlotTable.DroppedOnlyIfFull | LinuxCode/14/14.4.2/server.c:105-117 | in every interleaving an accepted descriptor is dropped only if every slot was occupied when the search looked at it |
| SlotTable.ScanConnects | LinuxCode/14/14.4.2/server.c:105-117 | the accepting thread's steps, undisturbed, have the effect of `Server.Connect` |
| SlotTable.SweepServes | LinuxCode/14/14.4.2/server.c:60-85 | the request thread's steps, undisturbed, have the effect of `Server.Serve` |
| SlotTable.AcceptConnects | LinuxCode/14/14.4.2/server.c:100-117 | so an accepted descriptor is treated as `Server.Connect` does |
| SlotTable.SelectServes | LinuxCode/14/14.4.2/server.c:50-86 | and ready descriptors as `Server.Serve` does, not at all while the counter is not positive |
| SlotTable.CounterIsRight | LinuxCode/14/14.4.2/server.c:128 | the counter equals the number of occupied slots exactly if the initial fill covers the table |
| SlotTable.CounterFallsShort | LinuxCode/14/14.4.2/server.c:128 | as written it stays 768 short, in every interleaving |
| Handshake.StepKeepsInvariant | SHTTPD_18/shttpd_worker.c:174-194 | a step keeps the handshake's invariant exactly unless it is a failed creation |
| Handshake.OnlyNewestUnlocks | SHTTPD_18/shttpd_worker.c:71-79 | only the newest worker can be about to unlock, and only while the main thread waits for it |
| Handshake.HandshakeHolds | SHTTPD_18/shttpd_worker.c:71-194 | in every interleaving with any number of workers a returned call means its worker passed its unlock and the lock is free, and the counter is exact but for the pending increment |
| Handshake.NeverStuck | SHTTPD_18/shttpd_worker.c:181-190 | at any point of a call some run of at most five steps, with no failed creation, brings it to its return |
| Handshake.FailedCreationSticks | SHTTPD_18/shttpd_worker.c:183-186 | after a failed creation no run ever lets the call return |
| Handshake.ReturnsUnlessStuck | SHTTPD_18/shttpd_worker.c:174-194 | a call under way can still return exactly if it is not waiting for a worker whose creation failed |
| LineReader.File.ReadLine | SHTTPD_18/shttpd_parameters.c:42-64 | one call returns the next line or the first `len` characters of it, advances the file accordingly, and leaves the rest of the buffer NUL |
| LineReader.ReadAll | SHTTPD_18/shttpd_parameters.c:175 | the loop ends, at the end of the file, with all the pieces |
| LineReader.NextLineProgress | SHTTPD_18/shttpd_parameters.c:49-63 | a call returns 0 exactly if nothing but line breaks is left, and is then at the end of the file; any other call moves on |
| LineReader.ChunksAreLines | SHTTPD_18/shttpd_parameters.c:42-64 | the pieces are the non-empty lines in order, each cut at every `len` characters |
| LineReader.NothingIsLost | SHTTPD_18/shttpd_parameters.c:42-64 | put together they are the file without its CRs and LFs |
| LineReader.PiecesFit | SHTTPD_18/shttpd_parameters.c:42-64 | none is empty, longer than `len` or holds a line break |
| LineReader.ShortLinesWhole | SHTTPD_18/shttpd_parameters.c:42-64 | lines come back whole exactly if none is longer than `len` |

## Left out

- IcmpEcho.IcmpPack: lengths above 255, for which the C loop does not end and writes without bound.
- IcmpEcho.Recognized: looks only at packets in a buffer long enough for the longest IP header and eight bytes more, as the program's receive buffer is.
- PingTable.Ping.Claim: the search and the three assignments of a claim are one step; a reply handled between them is not modelled.
- PingTable.Ping.Settle: is one step of the runs; a claim between the clearing of `flag` and the reading of the slot's send time is not modelled.
- PingTable.LossPercent: is not defined when nothing was sent, where the C program divides by zero.
- PingRuns.StatisticsMakeSense: supposes that the network answers no request twice; `DuplicateIsCounted` shows what else may come out.
- DhcpReceive.RecvRawPacket: what `memcpy` does with a negative length; the outcome is `CopyFault` and the message buffer is given as unchanged.
- Uri.UriDecode: expects the NUL behind the source that `uri_parse` passes it, and which the two look-aheads rely on.
- Headers.StoreHeader: `strtoul` and the date conversion; a number or date is the position its conversion is applied to.
- Request.Connection.RequestParse: `open` and `fstat` are a function from path to missing, directory or regular file; log output is dropped.
- RequestLaws.RequestRoundTrip: supposes that the file opens and is no directory; `RenderedRequestAccepted` covers the other cases.
- SlotTable.DriftConserved: `++` and `--` of the counter are single steps; the text received and sent is not modelled, nor `close`, which the code calls with -1 after it cleared the slot.
- Handshake.HandshakeHolds: `thread_init` is a binary semaphore that any thread may release, which POSIX leaves undefined for a mutex of this kind; `workersnum++` and `workersnum--` are single steps; the `flags` of a worker are an input (`Skip`).
- LineReader.File.Read: has no read errors, on which the C loop would look at a stale character.
- The dispatch and shutdown of workers and the writes to `flags`, which threads overwrite for one another.
- `Para_FileParse` behind the reader, `Mine_Type` and the ranges of `Method_DoGet`: their loops and comparisons do not do what they are meant to.
- Sockets, `select`, `fork`, signals, the formatting of replies, CGI and directory listings.
- The other copies of the same algorithms, the kernel modules, and the inter-process, GTK and introductory examples.
