/** Fixed-width unsigned integers of the firmware (uint8_t, uint32_t). */
module Ints {
  newtype u8 = x: int | 0 <= x < 0x100
  newtype u32 = x: int | 0 <= x < 0x1_0000_0000

  const TWO_32: int := 0x1_0000_0000

  /** `now - since` on uint32_t: the number of milliseconds elapsed, correct across
      one wrap-around of the millisecond clock. */
  function Elapsed(now: u32, since: u32): (d: u32)
    ensures since <= now ==> d as int == now as int - since as int
    ensures now < since ==> d as int == TWO_32 - (since as int - now as int)
    ensures d == 0 <==> now == since
  {
    ((now as int - since as int) % TWO_32) as u32
  }
}
