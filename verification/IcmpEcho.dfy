/** Echo requests as the ping program builds them, and the replies it recognises. */
module IcmpEcho {
  import opened Options
  import opened Bytes
  import opened OnesComplement
  import opened ChecksumCode

  const ICMP_ECHO: byte := 8
  const ICMP_ECHOREPLY: byte := 0
  const HEADER: nat := 8
  const CHECK: nat := 2  // offset of the checksum field

  function Ramp(length: nat): (data: seq<byte>)
    requires length <= 255
    ensures |data| == length
  {
    seq(length, i requires 0 <= i < length => i)
  }

  /** The message with a cleared checksum: header, then the bytes 0, 1, 2, ... */
  function Unsummed(e: Endian, number: int, pid: int, length: nat): (m: seq<byte>)
    requires length <= 255
    ensures |m| == HEADER + length
  {
    [ICMP_ECHO, 0] + [0, 0] + HostBytes(e, pid % 65536) + HostBytes(e, number % 65536) + Ramp(length)
  }

  /** The message sent. Only its first `length` bytes are summed, not the whole of it. */
  function EchoRequest(e: Endian, number: int, pid: int, length: nat): (m: seq<byte>)
    requires length <= 255
    ensures |m| == HEADER + length
  {
    var m := Unsummed(e, number, pid, length);
    Store(e, m, CHECK, IcmpChecksum(e, m[..length]))
  }

  method FillHeader(e: Endian, icmph: array<byte>, number: word, id: word)
    requires HEADER <= icmph.Length
    modifies icmph
    ensures icmph[..HEADER] == [ICMP_ECHO, 0] + [0, 0] + HostBytes(e, id) + HostBytes(e, number)
    ensures forall k | HEADER <= k < icmph.Length :: icmph[k] == old(icmph[k])
  {
    icmph[0], icmph[1] := ICMP_ECHO, 0;
    icmph[2], icmph[3] := 0, 0;
    var field := HostBytes(e, number);
    icmph[6], icmph[7] := field[0], field[1];
    field := HostBytes(e, id);
    icmph[4], icmph[5] := field[0], field[1];
  }

  /** The fill counter is 8 bits wide, so a length above 255 would never be reached. */
  method IcmpPack(e: Endian, icmph: array<byte>, number: int, pid: int, length: nat)
    requires length <= 255 && HEADER + length <= icmph.Length
    modifies icmph
    ensures icmph[..HEADER + length] == EchoRequest(e, number, pid, length)
    ensures icmph[HEADER + length..] == old(icmph[HEADER + length..])
  {
    FillHeader(e, icmph, number % 65536, pid % 65536);
    ghost var header := icmph[..HEADER];
    var i: byte := 0;
    while i < length
      invariant i <= length
      invariant icmph[..HEADER] == header
      invariant forall k | HEADER <= k < HEADER + i :: icmph[k] == k - HEADER
      invariant forall k | HEADER + length <= k < icmph.Length :: icmph[k] == old(icmph[k])
      decreases length - i
    {
      icmph[HEADER + i] := i;
      i := (i + 1) % 256;
    }
    assert icmph[..HEADER + length] == Unsummed(e, number, pid, length) by {
      FilledIn(icmph[..HEADER + length], header, length);
    }
    assert icmph[HEADER + length..] == old(icmph[HEADER + length..]);
    FillChecksum(e, icmph, length, Unsummed(e, number, pid, length));
  }

  /** The 8-bit fill counter after `n` rounds. */
  function Counter(n: nat): byte {
    if n == 0 then 0 else (Counter(n - 1) + 1) % 256
  }

  lemma {:induction false} CounterCounts(n: byte)
    ensures Counter(n) == n
  {
    if n > 0 {
      CounterCounts(n - 1);
    }
  }

  /** It reaches a length, which ends the loop, exactly if the length is at most 255. */
  lemma FillEnds(length: nat)
    ensures (exists n :: Counter(n) >= length) <==> length <= 255
  {
    if length <= 255 {
      CounterCounts(length);
    }
  }

  lemma FilledIn(m: seq<byte>, header: seq<byte>, length: nat)
    requires length <= 255 && |m| == HEADER + length && m[..HEADER] == header
    requires forall k | HEADER <= k < HEADER + length :: m[k] == k - HEADER
    ensures m == header + Ramp(length)
  {}

  method FillChecksum(e: Endian, icmph: array<byte>, length: nat, ghost m: seq<byte>)
    requires length <= 255 && |m| == HEADER + length <= icmph.Length && icmph[..|m|] == m
    modifies icmph
    ensures icmph[..|m|] == Store(e, m, CHECK, IcmpChecksum(e, m[..length]))
    ensures icmph[|m|..] == old(icmph[|m|..])
  {
    assert icmph[..length] == m[..length];
    var check := IcmpCksum(e, icmph, length);
    var field := HostBytes(e, check);
    icmph[2], icmph[3] := field[0], field[1];
  }

  // ---------- Verification by the receiver of the request ----------

  /** The newer ping's checksum over a message is 0 exactly when the field holds the checksum
      of the cleared message, up to the second zero. */
  lemma IcmpWholeSumTest(e: Endian, s: seq<byte>, w: word)
    requires |s| >= 4
    ensures
      var c := IcmpChecksum(e, Store(e, s, CHECK, 0));
      IcmpChecksum(e, Store(e, s, CHECK, w)) == 0 <==> w == c || (w == 65535 && c == 0)
  {
    IcmpSumStore(e, s, CHECK, 0);
    IcmpSumStore(e, s, CHECK, w);
    FoldedAdd(IcmpSum(e, Store(e, s, CHECK, 0)), w);
  }

  /** Summing what was sent, checksum included, gives 0: for every sequence number, process
      number and length at which the field lies within the summed bytes, odd ones included. */
  lemma RequestVerifiesItself(e: Endian, number: int, pid: int, length: nat)
    requires 4 <= length <= 255
    ensures IcmpChecksum(e, EchoRequest(e, number, pid, length)[..length]) == 0
  {
    var m := Unsummed(e, number, pid, length);
    var s := m[..length];
    assert HostBytes(e, 0) == [0, 0];
    assert Store(e, s, CHECK, 0) == s;
    IcmpWholeSumTest(e, s, IcmpChecksum(e, s));
    assert EchoRequest(e, number, pid, length)[..length] == Store(e, s, CHECK, IcmpChecksum(e, s));
  }

  // ---------- Replies ----------

  /** The sequence number of an echo reply addressed to this process, found behind the IP
      header; `len` is the length read. */
  function Recognized(e: Endian, buf: seq<byte>, len: int, pid: int): Option<word>
    requires |buf| >= 15 * 4 + HEADER
  {
    var h := buf[0] % 16 * 4;
    if len - h < 8 then None
    else if buf[h] == ICMP_ECHOREPLY && HostWord(e, buf[h + 4], buf[h + 5]) == pid
    then Some(HostWord(e, buf[h + 6], buf[h + 7]))
    else None
  }

  /** A reply that returns the identifier and sequence number of a request is recognised as
      the reply to it exactly when the process number fits the 16-bit identifier. */
  lemma {:induction false} ReplyRecognized(e: Endian, buf: seq<byte>, len: int, number: int, pid: int, length: nat)
    requires |buf| >= 15 * 4 + HEADER && length <= 255
    requires
      var h := buf[0] % 16 * 4;
      len - h >= 8 && buf[h] == ICMP_ECHOREPLY && buf[h + 4..h + 8] == EchoRequest(e, number, pid, length)[4..8]
    ensures Recognized(e, buf, len, pid) == if 0 <= pid < 65536 then Some(number % 65536) else None
  {}

  /** What is recognised, and as what: exactly an ICMP message of eight bytes or more whose type is
      0 and whose identifier is this process, with the sequence number it carries. */
  lemma {:induction false} RecognizedExactly(e: Endian, buf: seq<byte>, len: int, pid: int)
    requires |buf| >= 15 * 4 + HEADER
    ensures
      var h, reply := buf[0] % 16 * 4, Recognized(e, buf, len, pid);
      && (reply.Some? <==> len - h >= 8 && buf[h] == 0 && HostWord(e, buf[h + 4], buf[h + 5]) == pid)
      && (reply.Some? ==> HostBytes(e, reply.value) == buf[h + 6..h + 8])
  {
    WordImage(e, buf[buf[0] % 16 * 4 + 6], buf[buf[0] % 16 * 4 + 7]);
  }

  lemma {:induction false} WordImage(e: Endian, x: byte, y: byte)
    ensures HostBytes(e, HostWord(e, x, y)) == [x, y]
  {}

  /** A request, such as this program's own read back from the raw socket, is not a reply. */
  lemma OwnRequestIgnored(e: Endian, buf: seq<byte>, len: int, number: int, pid: int, length: nat, reader: int)
    requires |buf| >= 15 * 4 + HEADER && length <= 255
    requires
      var h := buf[0] % 16 * 4;
      buf[h..h + 8] == EchoRequest(e, number, pid, length)[..8]
    ensures Recognized(e, buf, len, reader) == None
  {
    hide EchoRequest, Recognized, HostWord, HostBytes;
    var h := buf[0] % 16 * 4;
    EchoRequestBytes(e, number, pid, length);
    var m := EchoRequest(e, number, pid, length);
    assert buf[h] == buf[h..h + 8][0] == m[..8][0] == m[0];
    RecognizedExactly(e, buf, len, reader);
  }

  /** Nor is a reply to another process. */
  lemma ForeignReplyIgnored(e: Endian, buf: seq<byte>, len: int, pid: int, number: int, length: nat, reader: int)
    requires |buf| >= 15 * 4 + HEADER && length <= 255 && reader != pid % 65536
    requires
      var h := buf[0] % 16 * 4;
      buf[h + 4..h + 8] == EchoRequest(e, number, pid, length)[4..8]
    ensures Recognized(e, buf, len, reader) == None
  {
    hide EchoRequest, Recognized, HostWord, HostBytes;
    var h := buf[0] % 16 * 4;
    var m := EchoRequest(e, number, pid, length);
    EchoRequestBytes(e, number, pid, length);
    assert buf[h + 4] == buf[h + 4..h + 8][0] == m[4] == m[4..6][0];
    assert buf[h + 5] == buf[h + 4..h + 8][1] == m[5] == m[4..6][1];
    RecognizedExactly(e, buf, len, reader);
  }

  /** The request byte by byte ("Echo or Echo Reply Message" of RFC 792), all but its checksum, of
      which `RequestVerifiesItself` speaks and which is never the second zero. */
  lemma EchoRequestBytes(e: Endian, number: int, pid: int, length: nat)
    requires length <= 255
    ensures
      var m := EchoRequest(e, number, pid, length);
      && |m| == 8 + length && m[0] == 8 && m[1] == 0
      && m[4..6] == HostBytes(e, pid % 65536) && m[6..8] == HostBytes(e, number % 65536)
      && (forall k | 8 <= k < 8 + length :: m[k] == k - 8)
      && (length > 0 ==> WordAt(e, m, 2) != 65535)
  {
    hide IcmpChecksum, HostBytes;
    var u := Unsummed(e, number, pid, length);
    assert u[4..6] == HostBytes(e, pid % 65536) && u[6..8] == HostBytes(e, number % 65536);
    var c := IcmpChecksum(e, u[..length]);
    var m := Store(e, u, 2, c);
    assert m[4..6] == u[4..6] && m[6..8] == u[6..8];
    assert WordAt(e, m, 2) == c;
    if length > 0 {
      NotAllOnes(e, u[..length]);
    }
  }

  lemma NotAllOnes(e: Endian, s: seq<byte>)
    requires s != [] && s[0] == 8
    ensures IcmpChecksum(e, s) != 65535
  {
    FoldedZero(IcmpSum(e, s));
  }
}
