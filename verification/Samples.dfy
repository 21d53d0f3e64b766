/** The sample types of the audio code and the primitives it takes from audio_utils. */
module Samples {
  type int16 = x: int | -0x8000 <= x < 0x8000
  type int32 = x: int | -0x8000_0000 <= x < 0x8000_0000

  /** The 16-bit value nearest to x. */
  function Clamp16(x: int): (r: int16)
    ensures -0x8000 <= x <= 0x7fff ==> r == x
    ensures x > 0x7fff ==> r == 0x7fff
    ensures x < -0x8000 ==> r == -0x8000
  {
    if x < -0x8000 then -0x8000 else if x > 0x7fff then 0x7fff else x
  }

  /** What a 32-bit two's-complement register holds of x. */
  function Wrap32(x: int): (r: int32)
    ensures (x - r) % 0x1_0000_0000 == 0
    ensures -0x8000_0000 <= x <= 0x7fff_ffff ==> r == x
  {
    (x + 0x8000_0000) % 0x1_0000_0000 - 0x8000_0000
  }

  lemma Wrap32Add(a: int, b: int)
    ensures Wrap32(Wrap32(a) + b) == Wrap32(a + b)
  {
  }
}
