/** Machine-level value types shared by the live-memory cache and the engine containers. */
module Types {
  /** An unsigned 8-bit value (`uint8_t`, one byte of a buffer). */
  type byte = x: int | 0 <= x < 0x100

  /** An unsigned 64-bit value (`uint64_t`): remote addresses and raw pointers, 0 being null. */
  type uint64 = x: int | 0 <= x < 0x1_0000_0000_0000_0000

  /** A signed 32-bit value (`int32_t`). */
  type int32 = x: int | -0x8000_0000 <= x < 0x8000_0000

  /** A Windows `wchar_t`: one 16-bit UTF-16 code unit, 0 being the NUL terminator. */
  type wchar = x: int | 0 <= x < 0x1_0000

  datatype Option<T> = None | Some(value: T)
}
