/** Machine scalar types of the firmware and a small Option wrapper. */
module Types {
  /** `uint8_t`: one colour channel of a pixel, one byte on the LED bus. */
  type uint8 = x: int | 0 <= x < 0x100

  const U32_MODULUS: int := 0x1_0000_0000

  /** `uint32_t`: the millisecond timestamps used by the debounce. */
  type uint32 = x: int | 0 <= x < 0x1_0000_0000

  datatype Option<T> = None | Some(value: T)
}
