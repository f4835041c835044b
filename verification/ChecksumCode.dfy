/** The three checksum routines of the repository, as the loops they are. */
module ChecksumCode {
  import opened Bytes
  import opened OnesComplement

  /** The accumulator of all three: a signed 32-bit integer that must not overflow. */
  type int32 = x: int | -0x8000_0000 <= x < 0x8000_0000

  /** The DHCP client's checksum: left-over byte first in its word, folding in a loop. */
  method UdhcpChecksum(e: Endian, addr: array<byte>, count: nat) returns (r: word)
    requires count <= addr.Length
    requires WordSum(e, addr[..count]) < 0x8000_0000
    ensures r == Checksum(e, addr[..count])
  {
    var sum: int32 := 0;
    var source, left := 0, count;
    while left > 1
      invariant 0 <= left && source + left == count && 0 <= sum
      invariant sum + WordSum(e, addr[source..count]) == WordSum(e, addr[..count])
    {
      assert addr[source..count][2..] == addr[source + 2..count];
      sum := sum + HostWord(e, addr[source], addr[source + 1]);
      source, left := source + 2, left - 2;
    }
    if left > 0 {
      sum := sum + HostWord(e, addr[source], 0);
    }
    while sum / 65536 != 0
      invariant 0 <= sum
      invariant Folded(sum) == Folded(WordSum(e, addr[..count]))
      decreases sum
    {
      FoldStep(sum);
      sum := sum % 65536 + sum / 65536;
    }
    r := 65535 - sum;
  }

  /** The last lines of both ping checksums: two unrolled folds, then the complement. */
  method FoldTwice(total: int32) returns (r: word)
    requires 0 <= total
    ensures r == 65535 - Folded(total)
  {
    TwoFoldsSuffice(total);
    var sum: int32 := total / 65536 + total % 65536;
    sum := sum + sum / 65536;
    r := 65535 - sum % 65536;
  }

  /** The checksum of the older ping program: same left-over byte, two unrolled folds. */
  method InChsum(e: Endian, addr: array<byte>, count: nat) returns (r: word)
    requires count <= addr.Length
    requires WordSum(e, addr[..count]) < 0x8000_0000
    ensures r == Checksum(e, addr[..count])
  {
    var sum: int32 := 0;
    var next, len := 0, count;
    while len > 1
      invariant 0 <= len && next + len == count && 0 <= sum
      invariant sum + WordSum(e, addr[next..count]) == WordSum(e, addr[..count])
    {
      assert addr[next..count][2..] == addr[next + 2..count];
      sum := sum + HostWord(e, addr[next], addr[next + 1]);
      next, len := next + 2, len - 2;
    }
    if len == 1 {
      sum := sum + HostWord(e, addr[next], 0);
    }
    r := FoldTwice(sum);
  }

  /** The sum taken by the newer ping program: a left-over byte is worth 256 times its value
      on every machine. */
  function IcmpSum(e: Endian, s: seq<byte>): nat {
    if |s| == 0 then 0
    else if |s| == 1 then 256 * s[0]
    else HostWord(e, s[0], s[1]) + IcmpSum(e, s[2..])
  }

  function IcmpChecksum(e: Endian, s: seq<byte>): word {
    65535 - Folded(IcmpSum(e, s))
  }

  /** The guard `len & 0xfffe` looks at 16 bits of the length only, so no more than
      `len % 65536` bytes are summed and the accumulator cannot overflow. */
  method IcmpCksum(e: Endian, data: array<byte>, len: nat) returns (r: word)
    requires len <= data.Length
    ensures r == IcmpChecksum(e, data[..len % 65536])
  {
    ghost var n, high, words := len % 65536, len / 65536, len % 65536 / 2;
    IcmpAccumulatorFits(e, data[..n]);
    var sum: int32 := 0;
    var odd := len % 2;
    var next, left := 0, len;
    Mask(high, words, odd);
    while left % 65536 / 2 != 0
      invariant 0 <= words && left == 65536 * high + 2 * words + odd
      invariant next + left == len && next + 2 * words + odd == n
      invariant left % 65536 / 2 == words
      invariant 0 <= sum && sum + IcmpSum(e, data[next..n]) == IcmpSum(e, data[..n])
      decreases words
    {
      words := words - 1;
      Mask(high, words, odd);
      assert data[next..n][2..] == data[next + 2..n];
      sum := sum + HostWord(e, data[next], data[next + 1]);
      next, left := next + 2, left - 2;
    }
    if odd == 1 {
      sum := sum + 256 * (data[next] as int);
    }
    r := FoldTwice(sum);
  }

  /** What the guard sees of a length. */
  lemma Mask(high: nat, words: nat, odd: nat)
    requires odd <= 1 && words < 32768
    ensures (65536 * high + 2 * words + odd) % 65536 / 2 == words
  {}

  lemma {:induction false} IcmpSumBound(e: Endian, s: seq<byte>)
    ensures IcmpSum(e, s) <= (|s| + 1) / 2 * 65535
  {
    if |s| > 1 {
      IcmpSumBound(e, s[2..]);
    }
  }

  lemma IcmpAccumulatorFits(e: Endian, s: seq<byte>)
    requires |s| <= 65536
    ensures IcmpSum(e, s) < 0x8000_0000
  {
    IcmpSumBound(e, s);
  }

  lemma {:induction false} IcmpSumVersusWordSum(e: Endian, s: seq<byte>)
    ensures IcmpSum(e, s) ==
            WordSum(e, s) + if e == Little && |s| % 2 == 1 then 255 * (s[|s| - 1] as int) else 0
  {
    if |s| > 1 {
      IcmpSumVersusWordSum(e, s[2..]);
    }
  }

  /** The newer ping's checksum is the Internet checksum on even lengths and on big-endian
      machines; a left-over byte on a little-endian machine makes it wrong unless it is 0. */
  lemma IcmpChecksumIsInternetChecksum(e: Endian, s: seq<byte>)
    ensures IcmpChecksum(e, s) == Checksum(e, s) <==>
            e == Big || |s| % 2 == 0 || s[|s| - 1] == 0
  {
    IcmpSumVersusWordSum(e, s);
    if e == Little && |s| % 2 == 1 {
      var extra: word := 255 * (s[|s| - 1] as int);
      FoldedAdd(WordSum(e, s), extra);
      OnesAddCancels(Folded(WordSum(e, s)), extra, 0);
    }
  }

  lemma IcmpSumStore(e: Endian, s: seq<byte>, k: nat, w: word)
    requires k % 2 == 0 && k + 1 < |s|
    ensures IcmpSum(e, Store(e, s, k, w)) == IcmpSum(e, s) - WordAt(e, s, k) + w
  {
    var t := Store(e, s, k, w);
    WordSumStore(e, s, k, w);
    IcmpSumVersusWordSum(e, s);
    IcmpSumVersusWordSum(e, t);
  }
}
