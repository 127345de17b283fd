/** Powers of 256: what shifting by whole bytes multiplies or divides by. */
module Powers {

  /** The number of values of an unsigned integer of 64 bits. */
  const WORD64: nat := 0x1_0000_0000_0000_0000

  type Word64 = x: nat | x < WORD64

  function Pow256(k: nat): (p: nat)
    ensures p >= 1
  {
    if k == 0 then 1 else 256 * Pow256(k - 1)
  }
}
