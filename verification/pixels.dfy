/** Pixel classification: the verdict "blocked" (black) or "passable" for one pixel. */
module Pixels {

  /** Go's `uint32`. */
  newtype uint32 = x: int | 0 <= x < 0x1_0000_0000

  /** A pixel as Go's `color.Color.RGBA()` reports it: red, green, blue and alpha
      on the 16-bit scale (0 to 0xFFFF), each carried in a `uint32`. */
  datatype Rgba = Rgba(r: uint32, g: uint32, b: uint32, a: uint32)

  /** The largest value `RGBA()` reports for a channel. */
  const ChannelMax: int := 0xFFFF

  /** The average below which a pixel is black. */
  const Threshold: int := 127

  /** `isBlack`: the channel sum is a `uint32` sum (it wraps modulo 2^32), divided
      by 3 in unsigned arithmetic and compared with the threshold; alpha is ignored. */
  function IsBlack(r: uint32, g: uint32, b: uint32, alpha: uint32): (black: bool)
    ensures r as int + g as int + b as int < 0x1_0000_0000 ==>
              (black <==> r as int + g as int + b as int < 3 * Threshold)
  {
    var sum := (r as int + g as int + b as int) % 0x1_0000_0000;
    sum / 3 < Threshold
  }

  /** The classification of a whole pixel. */
  predicate IsBlackPixel(p: Rgba) {
    IsBlack(p.r, p.g, p.b, p.a)
  }

  /** A pixel whose channels are on the 16-bit scale never makes the sum wrap,
      so it is black exactly when its integer average is below the threshold,
      whatever its alpha. */
  lemma BlackIffDarkAverage(p: Rgba, alpha: uint32)
    requires p.r as int <= ChannelMax && p.g as int <= ChannelMax && p.b as int <= ChannelMax
    ensures IsBlackPixel(p) <==> (p.r as int + p.g as int + p.b as int) / 3 < Threshold
    ensures IsBlackPixel(p) == IsBlackPixel(p.(a := alpha))
  {
  }

  /** The boundary is exercised at the average 127: average 126 is black,
      average 127 is not. */
  lemma ThresholdBoundary()
    ensures IsBlack(126, 126, 126, 0xFFFF)
    ensures IsBlack(127, 127, 126, 0xFFFF)
    ensures !IsBlack(127, 127, 127, 0xFFFF)
    ensures !IsBlack(0x7FFF, 0x7FFF, 0x7FFF, 0xFFFF)
  {
  }
}
