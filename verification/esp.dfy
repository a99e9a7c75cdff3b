/** Error codes and fixed-width integers of the ESP-IDF platform the firmware runs on. */
module Esp {

  /** The `esp_err_t` values the modelled functions return. */
  datatype EspErr = EspOk | EspFail | ErrInvalidArg | ErrInvalidSize

  const Two32: int := 0x1_0000_0000

  newtype u8 = x: int | 0 <= x < 0x100
  newtype u16 = x: int | 0 <= x < 0x1_0000
  newtype u32 = x: int | 0 <= x < 0x1_0000_0000

  /** `x++` on a `uint32_t`: wraps to 0 after 2^32 - 1. */
  function Inc32(x: u32): (r: u32)
    ensures r as int == (x as int + 1) % Two32
    ensures x as int < Two32 - 1 ==> r as int == x as int + 1
  {
    if x as int == Two32 - 1 then 0 else x + 1
  }

  /** Unsigned 32-bit subtraction `a - b`, wrapping modulo 2^32. */
  function Sub32(a: u32, b: u32): (r: u32)
    ensures r as int == (a as int - b as int) % Two32
    ensures b <= a ==> r == a - b
  {
    if b <= a then a - b else (a as int - b as int + Two32) as u32
  }
}
