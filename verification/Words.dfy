/** Eight-bit bytes and 32-bit words. */
module Words {
  newtype Byte = x: int | 0 <= x < 256

  /** The number of 32-bit words, at which unsigned arithmetic wraps around. */
  const WORD: nat := 0x1_0000_0000

  type Word = x: nat | x < WORD

  function Zeros(n: nat): seq<Byte> {
    seq(n, _ => 0)
  }
}
