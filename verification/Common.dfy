/** Machine words, bitwise or, and optional values. */
module Common {

  type Byte = x: int | 0 <= x < 0x100
  type Word32 = x: int | 0 <= x < 0x1_0000_0000

  const UINT32_MAX: Word32 := 0xFFFF_FFFF

  datatype Option<T> = None | Some(value: T)

  /** Bitwise or. */
  function BitOr(x: nat, y: nat): nat
    decreases x + y
  {
    if x == 0 then y else if y == 0 then x
    else (if x % 2 == 1 || y % 2 == 1 then 1 else 0) + 2 * BitOr(x / 2, y / 2)
  }
}
