/** 32-bit machine words: unsigned integers below 2^32 with C's wrap-around addition. */
module Words {

  const TWO32: int := 0x1_0000_0000

  type Word = x: int | 0 <= x < 0x1_0000_0000

  /** C's `+` on uint32_t. */
  function Add(x: Word, y: Word): (r: Word)
  {
    (x + y) % 0x1_0000_0000
  }

  lemma AddCommutes(x: Word, y: Word)
    ensures Add(x, y) == Add(y, x)
  {
  }

  /** C's byte swap of a 32-bit word. */
  function Swab32(x: Word): (r: Word)
  {
    0x100_0000 * (x % 256) + 0x1_0000 * (x / 256 % 256) + 0x100 * (x / 0x1_0000 % 256) + x / 0x100_0000
  }
}
