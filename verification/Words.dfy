/** Bytes, and 32-bit words as the code computes with them. */
module Words {
  type byte = b: int | 0 <= b < 256

  const WORD := 0x1_0000_0000

  /** Unsigned 32-bit arithmetic. */
  function Mod32(n: int): (r: nat)
    ensures r < WORD
  {
    n % WORD
  }

  /** Signed 32-bit arithmetic. */
  function Signed32(n: int): (r: int)
    ensures -0x8000_0000 <= r < 0x8000_0000
    ensures -0x8000_0000 <= n < 0x8000_0000 ==> r == n
  {
    (n + 0x8000_0000) % WORD - 0x8000_0000
  }
}
