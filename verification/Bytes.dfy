/** Bytes in memory, and the two ways a 16-bit word is laid over them. */
module Bytes {

  type byte = x: int | 0 <= x < 256
  type word = x: int | 0 <= x < 65536

  /** The byte order of the machine the C code runs on. */
  datatype Endian = Little | Big

  /** The value read through a `uint16_t *` that points at `first`, `second`. */
  function HostWord(e: Endian, first: byte, second: byte): word {
    match e
    case Little => first + 256 * second
    case Big => 256 * first + second
  }

  /** The memory image of a `uint16_t` holding `w`. */
  function HostBytes(e: Endian, w: word): (image: seq<byte>)
    ensures |image| == 2 && HostWord(e, image[0], image[1]) == w
  {
    match e
    case Little => [w % 256, w / 256]
    case Big => [w / 256, w % 256]
  }

  /** The memory image of `htons(w)`: most significant byte first on every machine. */
  function NetBytes(w: word): (image: seq<byte>)
    ensures |image| == 2 && NetWord(image[0], image[1]) == w
  {
    [w / 256, w % 256]
  }

  /** `ntohs` of the field stored as `first`, `second`. */
  function NetWord(first: byte, second: byte): word {
    256 * first + second
  }

  function Swap(w: word): word {
    256 * (w % 256) + w / 256
  }

  function Zeros(n: nat): (s: seq<byte>)
    ensures |s| == n
  {
    seq(n, _ => 0)
  }
}
