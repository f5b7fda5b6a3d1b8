/** Fixed-width integers of the libretro ABI and the optional value that
    stands in for a raw pointer that may be null. */
module Types {

  /** Rust's `i16`: an audio sample or an input level. */
  type int16 = x: int | -0x8000 <= x < 0x8000

  /** Rust's `u8`: an SDL joystick button index. */
  type uint8 = x: int | 0 <= x < 0x100

  /** Rust's `u32`: ports, device classes, indices, ids, frame sizes. */
  type uint32 = x: int | 0 <= x < 0x1_0000_0000

  /** `None` models a null pointer, `Some(s)` the memory it points to. */
  datatype Option<T> = None | Some(value: T)

  /** Rust's `usize::min`. */
  function Min(a: nat, b: nat): (m: nat)
    ensures m <= a && m <= b
    ensures m == a || m == b
  {
    if a <= b then a else b
  }
}
