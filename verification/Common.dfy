/** Fixed-width integers and the option type shared by every module. */
module Common {
  const TWO_8: int := 0x100
  const TWO_16: int := 0x1_0000
  const TWO_24: int := 0x100_0000
  const TWO_32: int := 0x1_0000_0000

  type uint8 = n: int | 0 <= n < TWO_8
  type uint16 = n: int | 0 <= n < TWO_16
  type uint24 = n: int | 0 <= n < TWO_24
  type uint32 = n: int | 0 <= n < TWO_32

  /** An increment of an unsigned 32-bit counter. */
  function Inc32(n: uint32): uint32 {
    if n + 1 == TWO_32 then 0 else n + 1
  }

  datatype Option<+T> = None | Some(value: T)

  /** How a comparator orders two keys. */
  function Sign(a: int, b: int): int {
    if a > b then 1 else if a < b then -1 else 0
  }
}
