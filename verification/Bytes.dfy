/** Octets, and the multi-byte integers the file and block formats are built from. */
module Bytes {

  newtype byte = b: int | 0 <= b < 256

  datatype Option<+T> = None | Some(value: T)

  /** Little-endian 16 bit value of two octets. */
  function FromLE16(lo: byte, hi: byte): (n: nat)
    ensures n < 0x1_0000
  {
    lo as nat + 256 * (hi as nat)
  }

  function ToLE16(n: nat): (s: seq<byte>)
    requires n < 0x1_0000
    ensures |s| == 2 && FromLE16(s[0], s[1]) == n
  {
    [(n % 256) as byte, (n / 256) as byte]
  }
}
