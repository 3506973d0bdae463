/** Bytes, options and the big-endian 32-bit integers of the peer wire protocol. */
module Bytes {
  type byte = b: int | 0 <= b < 256

  datatype Option<+T> = None | Some(value: T)

  const TWO_TO_32: int := 0x1_0000_0000

  /** The four bytes `htonl` leaves in memory; a wider value is cut to 32 bits first. */
  function Put32(n: nat): (bs: seq<byte>)
    ensures |bs| == 4
  {
    [(n / 0x100_0000) % 256, (n / 0x1_0000) % 256, (n / 0x100) % 256, n % 256]
  }

  /** What `ntohl` reads from the first four bytes. */
  function Get32(bs: seq<byte>): (n: nat)
    requires |bs| >= 4
    ensures n < TWO_TO_32
  {
    var b0: int, b1: int, b2: int, b3: int := bs[0], bs[1], bs[2], bs[3];
    b0 * 0x100_0000 + b1 * 0x1_0000 + b2 * 0x100 + b3
  }

  lemma DigitsBase256(n: nat)
    ensures n == (n / 0x1_0000_0000) * 0x1_0000_0000
                 + (n / 0x100_0000) % 256 * 0x100_0000 + (n / 0x1_0000) % 256 * 0x1_0000
                 + (n / 0x100) % 256 * 0x100 + n % 256
  {
    assert n / 0x1_0000 == n / 0x100 / 0x100;
    assert n / 0x100_0000 == n / 0x1_0000 / 0x100;
    assert n / 0x1_0000_0000 == n / 0x100_0000 / 0x100;
  }

  lemma Get32Put32(n: nat, tail: seq<byte>)
    ensures Get32(Put32(n) + tail) == n % TWO_TO_32
  {
    DigitsBase256(n);
  }
}
