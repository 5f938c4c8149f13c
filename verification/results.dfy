/** The two-armed outcome used by every fallible operation of the kernel,
    mirroring the language's own `Result<T, E>`. */
module Results {

  datatype Result<+T, +E> = Ok(value: T) | Err(error: E)

  /** The 32-bit signed integers the firmware interface is declared with. */
  newtype i32 = x: int | -0x8000_0000 <= x < 0x8000_0000
}
