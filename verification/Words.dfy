/** Fixed-width machine values, modelled as ranges of `int`. */
module Words {

  const TWO32: int := 0x1_0000_0000
  const PAGE_SIZE: int := 0x1000

  type byte = x: int | 0 <= x < 0x100
  type uint16 = x: int | 0 <= x < 0x1_0000
  type uint32 = x: int | 0 <= x < 0x1_0000_0000

  datatype Option<+T> = None | Some(value: T)

  /** The value a `uint32_t` variable holds after being assigned `x`. */
  function Wrap(x: int): (r: uint32)
    ensures 0 <= x < TWO32 ==> r == x
  {
    if 0 <= x < TWO32 then x else x % TWO32
  }
}
