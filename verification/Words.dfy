/** Number formats shared by the hardware models. */
module Words {
  const MODULUS: int := 0x1_0000_0000

  /** An unsigned 32-bit value. */
  type Word = x: int | 0 <= x < 0x1_0000_0000

  /** An architectural register number. */
  type Reg = x: int | 0 <= x < 32

  function Wrap(x: int): Word { x % MODULUS }
}
