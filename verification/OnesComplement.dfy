/** The Internet checksum as arithmetic: plain sums of 16-bit words, their folding to 16
    bits, and the ones' complement addition of section 1 of RFC 1071 that they stand for. */
module OnesComplement {
  import opened Bytes

  /** The unfolded sum of the 16-bit words of `s`; a left-over byte is the first byte of its word. */
  function WordSum(e: Endian, s: seq<byte>): nat {
    if |s| == 0 then 0
    else if |s| == 1 then HostWord(e, s[0], 0)
    else HostWord(e, s[0], s[1]) + WordSum(e, s[2..])
  }

  /** The 16-bit value that folding carries back in must reach: `sum` with as many 65535s
      cast out as leave it a 16-bit number, and no more. */
  function Folded(sum: nat): word {
    if sum <= 65535 then sum else Folded(sum - 65535)
  }

  function Checksum(e: Endian, s: seq<byte>): word {
    65535 - Folded(WordSum(e, s))
  }

  // ---------- Folding ----------

  lemma {:induction false} FoldedMultiple(sum: nat, q: nat)
    requires sum > 0 || q == 0
    ensures Folded(sum + 65535 * q) == Folded(sum)
    decreases q
  {
    if q > 0 {
      FoldedMultiple(sum, q - 1);
    }
  }

  lemma {:induction false} FoldedClosedForm(sum: nat)
    ensures Folded(sum) == if sum == 0 then 0 else (sum - 1) % 65535 + 1
  {
    if sum > 0 {
      FoldedMultiple((sum - 1) % 65535 + 1, (sum - 1) / 65535);
    }
  }

  /** One round of carrying the high half back into the low half changes nothing. */
  lemma {:induction false} FoldStep(sum: nat)
    ensures Folded(sum % 65536 + sum / 65536) == Folded(sum)
  {
    FoldedMultiple(sum % 65536 + sum / 65536, sum / 65536);
  }

  /** The two unrolled folds of the ping programs do the work of the loop. */
  lemma {:induction false} TwoFoldsSuffice(sum: nat)
    requires sum < 0x8000_0000
    ensures
      var once := sum / 65536 + sum % 65536;
      (once + once / 65536) % 65536 == Folded(sum)
  {
    FoldStep(sum);
  }

  // ---------- Ones' complement addition ----------

  /** Addition with end-around carry. */
  function OnesAdd(x: word, y: word): word {
    if x + y > 65535 then x + y - 65535 else x + y
  }

  function OnesSum(e: Endian, s: seq<byte>): word {
    if |s| == 0 then 0
    else if |s| == 1 then HostWord(e, s[0], 0)
    else OnesAdd(HostWord(e, s[0], s[1]), OnesSum(e, s[2..]))
  }

  lemma {:induction false} FoldedAdd(a: nat, b: nat)
    ensures Folded(a + b) == OnesAdd(Folded(a), Folded(b))
  {
    if a > 65535 {
      FoldedAdd(a - 65535, b);
    } else if b > 65535 {
      FoldedAdd(a, b - 65535);
    }
  }

  /** Deferring the carries, as every loop of the repository does, computes the ones'
      complement of the ones' complement sum. */
  lemma {:induction false} ChecksumIsOnesComplement(e: Endian, s: seq<byte>)
    ensures Folded(WordSum(e, s)) == OnesSum(e, s)
    ensures Checksum(e, s) == 65535 - OnesSum(e, s)
  {
    if |s| > 1 {
      ChecksumIsOnesComplement(e, s[2..]);
      FoldedAdd(HostWord(e, s[0], s[1]), WordSum(e, s[2..]));
    }
  }

  // ---------- The 32-bit accumulator ----------

  lemma {:induction false} WordSumBound(e: Endian, s: seq<byte>)
    ensures WordSum(e, s) <= (|s| + 1) / 2 * 65535
  {
    if |s| > 1 {
      WordSumBound(e, s[2..]);
    }
  }

  /** The lengths at which every sum fits the signed 32-bit accumulator. */
  predicate SafeLength(e: Endian, n: nat) {
    n <= 65536 || (n == 65537 && e == Little)
  }

  lemma AccumulatorFits(e: Endian, s: seq<byte>)
    requires SafeLength(e, |s|)
    ensures WordSum(e, s) < 0x8000_0000
  {
    if |s| == 65537 {
      LastByte(e, s);
      WordSumBound(e, s[..65536]);
    } else {
      WordSumBound(e, s);
    }
  }

  lemma LastByte(e: Endian, s: seq<byte>)
    requires |s| % 2 == 1
    ensures WordSum(e, s) == WordSum(e, s[..|s| - 1]) + HostWord(e, s[|s| - 1], 0)
  {
    var n := |s| - 1;
    assert s == s[..n] + [s[n]];
    WordSumAppend(e, s[..n], [s[n]]);
  }

  function Saturated(n: nat): (s: seq<byte>)
    ensures |s| == n
  {
    seq(n, _ => 255)
  }

  lemma {:induction false} SaturatedSum(e: Endian, n: nat)
    ensures WordSum(e, Saturated(n)) >= n / 2 * 65535
  {
    if n > 1 {
      assert Saturated(n)[2..] == Saturated(n - 2);
      SaturatedSum(e, n - 2);
    }
  }

  /** No buffer of `n` bytes overflows the accumulator exactly for the safe lengths. */
  lemma AccumulatorFitsExactly(e: Endian, n: nat)
    ensures (forall s: seq<byte> | |s| == n :: WordSum(e, s) < 0x8000_0000) <==> SafeLength(e, n)
  {
    if SafeLength(e, n) {
      forall s: seq<byte> | |s| == n ensures WordSum(e, s) < 0x8000_0000 {
        AccumulatorFits(e, s);
      }
    } else {
      var full := Saturated(n);
      assert WordSum(e, full) >= 0x8000_0000 by {
        if n == 65537 {
          LastByte(e, full);
          assert full[..65536] == Saturated(65536);
          SaturatedSum(e, 65536);
        } else {
          SaturatedSum(e, n);
        }
      }
    }
  }

  // ---------- Sums of parts ----------

  lemma {:induction false} WordSumAppend(e: Endian, a: seq<byte>, b: seq<byte>)
    requires |a| % 2 == 0
    ensures WordSum(e, a + b) == WordSum(e, a) + WordSum(e, b)
  {
    if a == [] {
      assert a + b == b;
    } else {
      assert (a + b)[2..] == a[2..] + b;
      WordSumAppend(e, a[2..], b);
    }
  }

  lemma {:induction false} WordSumZeros(e: Endian, n: nat)
    ensures WordSum(e, Zeros(n)) == 0
  {
    if n > 1 {
      assert Zeros(n)[2..] == Zeros(n - 2);
      WordSumZeros(e, n - 2);
    }
  }

  /** The word at even offset `k`, and the bytes with another word stored there. */
  function WordAt(e: Endian, s: seq<byte>, k: nat): word
    requires k + 1 < |s|
  {
    HostWord(e, s[k], s[k + 1])
  }

  function Store(e: Endian, s: seq<byte>, k: nat, w: word): (t: seq<byte>)
    requires k + 1 < |s|
    ensures |t| == |s| && t == s[..k] + HostBytes(e, w) + s[k + 2..]
  {
    s[k := HostBytes(e, w)[0]][k + 1 := HostBytes(e, w)[1]]
  }

  lemma WordSumStore(e: Endian, s: seq<byte>, k: nat, w: word)
    requires k % 2 == 0 && k + 1 < |s|
    ensures WordSum(e, Store(e, s, k, w)) == WordSum(e, s) - WordAt(e, s, k) + w
  {
    var pre, post := s[..k], s[k + 2..];
    var was := [s[k], s[k + 1]];
    assert s == pre + (was + post);
    WordSumAppend(e, pre, was + post);
    WordSumAppend(e, was, post);
    var now := HostBytes(e, w);
    assert Store(e, s, k, w) == pre + (now + post);
    WordSumAppend(e, pre, now + post);
    WordSumAppend(e, now, post);
  }

  // ---------- Byte-order independence, section 2(B) of RFC 1071 ----------

  /** Swapping the bytes of a word is a homomorphism of ones' complement addition: the carry
      out of either byte ends up in the other one. */
  lemma {:induction false} SwapAdd(xh: byte, xl: byte, yh: byte, yl: byte)
    ensures Swap(OnesAdd(256 * xh + xl, 256 * yh + yl)) == OnesAdd(256 * xl + xh, 256 * yl + yh)
  {
    // the carries out of the low and the high byte, each going round into the other byte
    var low := if xl + yl + (if xh + yh > 255 then 1 else 0) > 255 then 1 else 0;
    var high := if xh + yh + low > 255 then 1 else 0;
    if 256 * (xh + yh) + xl + yl != 65535 {
      SwapBytes(xh + yh + low - 256 * high, xl + yl + high - 256 * low);
    }
  }

  lemma SwapBytes(high: byte, low: byte)
    ensures Swap(256 * high + low) == 256 * low + high
  {}

  lemma {:induction false} OnesSumSwaps(s: seq<byte>)
    ensures OnesSum(Big, s) == Swap(OnesSum(Little, s))
  {
    if |s| == 1 {
      SwapBytes(0, s[0]);
    } else if |s| > 1 {
      OnesSumSwaps(s[2..]);
      var rest := OnesSum(Little, s[2..]);
      SwapAdd(s[1], s[0], rest / 256, rest % 256);
    }
  }

  /** Reading the same bytes in the other byte order swaps the two bytes of the checksum,
      so its memory image is the same on every machine. */
  lemma ChecksumByteOrder(s: seq<byte>)
    ensures Checksum(Big, s) == Swap(Checksum(Little, s))
    ensures HostBytes(Big, Checksum(Big, s)) == HostBytes(Little, Checksum(Little, s))
  {
    OnesSumSwaps(s);
    ChecksumIsOnesComplement(Little, s);
    ChecksumIsOnesComplement(Big, s);
    SwapComplement(OnesSum(Little, s));
    SwapImage(Checksum(Little, s));
  }

  lemma {:induction false} SwapComplement(w: word)
    ensures Swap(65535 - w) == 65535 - Swap(w)
  {}

  lemma {:induction false} SwapImage(w: word)
    ensures HostBytes(Big, Swap(w)) == HostBytes(Little, w)
  {}

  // ---------- Verification of a received checksum ----------

  /** A stored checksum passes the "sum everything, expect 0" test exactly when it is the one
      computed over a zeroed field, up to the second zero of ones' complement arithmetic. */
  lemma WholeSumTest(e: Endian, s: seq<byte>, k: nat, w: word)
    requires k % 2 == 0 && k + 1 < |s|
    ensures
      var c := Checksum(e, Store(e, s, k, 0));
      Checksum(e, Store(e, s, k, w)) == 0 <==> w == c || (w == 65535 && c == 0)
  {
    WordSumStore(e, s, k, 0);
    WordSumStore(e, s, k, w);
    FoldedAdd(WordSum(e, Store(e, s, k, 0)), w);
  }

  lemma {:induction false} FoldedZero(sum: nat)
    ensures Folded(sum) == 0 <==> sum == 0
  {
    if sum > 65535 {
      FoldedZero(sum - 65535);
    }
  }

  /** The two representations of zero in ones' complement arithmetic. */
  predicate TwoZeros(x: word, y: word) {
    (x == 0 && y == 65535) || (x == 65535 && y == 0)
  }

  lemma OnesAddCancels(r: word, x: word, y: word)
    ensures OnesAdd(r, x) == OnesAdd(r, y) <==> x == y || (TwoZeros(x, y) && r != 0)
  {}

  /** Replacing one word of a checksummed region goes unnoticed exactly when it trades the two
      zeros of ones' complement arithmetic and some other word is not zero. */
  lemma SingleWordChange(e: Endian, s: seq<byte>, k: nat, w: word)
    requires k % 2 == 0 && k + 1 < |s|
    ensures
      Checksum(e, Store(e, s, k, w)) == Checksum(e, s) <==>
        w == WordAt(e, s, k) ||
        (TwoZeros(w, WordAt(e, s, k)) && WordSum(e, Store(e, s, k, 0)) != 0)
  {
    WordSumStore(e, s, k, w);
    WordSumStore(e, s, k, 0);
    var rest := WordSum(e, Store(e, s, k, 0));
    FoldedAdd(rest, w);
    FoldedAdd(rest, WordAt(e, s, k));
    FoldedZero(rest);
    OnesAddCancels(Folded(rest), w, WordAt(e, s, k));
  }
}
