/** Fixed-width machine values shared by the other modules. */
module Machine {

  const TWO32: nat := 0x1_0000_0000
  const TWO64: nat := 0x1_0000_0000_0000_0000

  const PAGE_SIZE: nat := 4096

  type byte = b: int | 0 <= b < 256
  type u16 = w: int | 0 <= w < 0x1_0000
  type u32 = w: int | 0 <= w < TWO32
  type u64 = w: int | 0 <= w < TWO64

  datatype Option<+T> = None | Some(value: T)

  /** The value kept when x is stored in an unsigned 32-bit variable. */
  function U32(x: int): u32 {
    x % TWO32
  }

  /** The value kept when x is stored in an unsigned 64-bit variable. */
  function U64(x: int): u64 {
    x % TWO64
  }

  function Min(a: int, b: int): int {
    if a <= b then a else b
  }

  function Max(a: int, b: int): int {
    if a <= b then b else a
  }
}
