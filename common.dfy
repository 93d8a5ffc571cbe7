/** Small shared vocabulary: an optional value and the fixed-width unsigned
    integer types of the ESP8266 target (uint8_t and the 32-bit unsigned long). */
module Common {

  datatype Option<T> = None | Some(value: T)

  /** An 8-bit unsigned value (uint8 / one colour channel). */
  type byte = x: int | 0 <= x < 0x100

  /** 2^32: `unsigned long` and `unsigned int` are 32 bits wide on the ESP8266. */
  const U32_MODULUS: int := 0x1_0000_0000

  /** A 32-bit unsigned value (ulong, uint); arithmetic on it wraps modulo U32_MODULUS. */
  type u32 = x: int | 0 <= x < 0x1_0000_0000
}
