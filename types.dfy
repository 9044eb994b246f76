/** Machine-level value types of the ESP8266 sketch. */
module Types {

  /** An 8-bit unsigned value (`byte`, `uint8_t`). */
  type byte = x: int | 0 <= x < 0x100

  /** A 32-bit unsigned value (`unsigned long` on the ESP8266). */
  type u32 = x: int | 0 <= x < 0x1_0000_0000

  /** A 32-bit signed value (`int` on the ESP8266). */
  type int32 = x: int | -0x8000_0000 <= x < 0x8000_0000

  datatype Option<T> = None | Some(value: T)

  /** The implicit C++ conversion of an `int` to `uint8_t`: reduction modulo 256. */
  function ToByte(x: int): (b: byte)
    ensures 0 <= x < 0x100 ==> b == x
    ensures (x - b) % 0x100 == 0
  {
    x % 0x100
  }

  /** `a + b` on `unsigned long`, which wraps modulo 2^32. */
  function WrapAdd(a: u32, b: u32): (r: u32)
    ensures r == if a + b < 0x1_0000_0000 then a + b else a + b - 0x1_0000_0000
  {
    (a + b) % 0x1_0000_0000
  }
}
