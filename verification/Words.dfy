/** Unsigned 64-bit arithmetic, where the code can leave the range. */
module Words {
  const WORD: nat := 0x1_0000_0000_0000_0000

  /** `a - b` on uint64. */
  function WrapSub(a: nat, b: nat): nat {
    (a - b) % WORD
  }

  /** The conversion `uint64(x)` of a signed integer. */
  function ToUint64(x: int): nat {
    x % WORD
  }
}
