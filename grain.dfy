/** The film-grain stage of `effect`. The Gaussian draw is not modelled: the noise
    is an H x W x 3 buffer of int16 samples supplied by the caller. The graded
    frame is widened to int16, the noise added in int16 (numpy wraps on
    overflow), and the sum clipped to [0, 255] and cast back to uint8. */
module Grain {
  import opened Pixels

  const INT16_MIN := -32768
  const INT16_MAX := 32767

  predicate IsInt16(x: int) {
    INT16_MIN <= x <= INT16_MAX
  }

  /** Two's-complement wrap-around into int16, as numpy's int16 addition does. */
  function Wrap16(x: int): (r: int)
    ensures IsInt16(r)
    ensures IsInt16(x) ==> r == x
    ensures (x - r) % 65536 == 0
  {
    (x + 32768) % 65536 - 32768
  }

  /** A noise buffer for frame f: the same shape, every sample an int16. */
  predicate IsNoise(n: Frame, f: Frame) {
    SameShape(n, f) &&
    forall y, x :: 0 <= y < |n| && 0 <= x < |n[y]| ==>
      IsInt16(n[y][x].r) && IsInt16(n[y][x].g) && IsInt16(n[y][x].b)
  }

  /** One sample: clip(int16(c) + n, 0, 255). */
  function GrainSample(c: int, n: int): (r: int)
    ensures IsByte(r)
  {
    ClampByte(Wrap16(c + n))
  }

  /** For an 8-bit sample and int16 noise the sum is at least -32768, so it can
      only overflow upwards. The sample is clamp(c + n, 0, 255) exactly when the
      sum fits in int16; when it does not, it wraps below zero and comes out 0. */
  lemma GrainSampleIsClamp(c: int, n: int)
    requires IsByte(c) && IsInt16(n)
    ensures GrainSample(c, n) == ClampByte(c + n) <==> c + n <= INT16_MAX
    ensures c + n > INT16_MAX ==> GrainSample(c, n) == 0
  {
  }

  /** The overflow the int16 addition allows: a white sample plus the largest
      int16 noise wraps to a negative sum and comes out black. */
  lemma GrainSampleWraps()
    ensures GrainSample(255, INT16_MAX) == 0
    ensures ClampByte(255 + INT16_MAX) == 255
  {
  }

  /** The stage over a whole frame. */
  function Grain(f: Frame, noise: Frame): (g: Frame)
    requires IsNoise(noise, f)
    ensures SameShape(g, f)
    ensures FrameInRange(g)
  {
    seq(|f|, y requires 0 <= y < |f| =>
      seq(|f[y]|, x requires 0 <= x < |f[y]| =>
        Rgb(GrainSample(f[y][x].r, noise[y][x].r),
            GrainSample(f[y][x].g, noise[y][x].g),
            GrainSample(f[y][x].b, noise[y][x].b))))
  }

  /** The all-zero noise buffer of a frame's shape. */
  function ZeroNoise(f: Frame): (n: Frame)
    ensures IsNoise(n, f)
  {
    seq(|f|, y requires 0 <= y < |f| => seq(|f[y]|, x => Rgb(0, 0, 0)))
  }

  /** Without noise, an 8-bit frame comes through unchanged. */
  lemma GrainZeroNoise(f: Frame)
    requires FrameInRange(f)
    ensures Grain(f, ZeroNoise(f)) == f
  {
    var g := Grain(f, ZeroNoise(f));
    forall y | 0 <= y < |f|
      ensures g[y] == f[y]
    {
      forall x | 0 <= x < |f[y]|
        ensures g[y][x] == f[y][x]
      {
        assert PixelInRange(f[y][x]);
      }
    }
  }

  /** Each output sample is clamp(c + n, 0, 255) per channel exactly when none of
      the three int16 sums overflows. */
  lemma GrainIsClampedSum(f: Frame, noise: Frame, y: int, x: int)
    requires IsNoise(noise, f) && FrameInRange(f)
    requires 0 <= y < |f| && 0 <= x < |f[y]|
    ensures (Grain(f, noise)[y][x] ==
               Rgb(ClampByte(f[y][x].r + noise[y][x].r),
                   ClampByte(f[y][x].g + noise[y][x].g),
                   ClampByte(f[y][x].b + noise[y][x].b)))
      <==> (f[y][x].r + noise[y][x].r <= INT16_MAX &&
            f[y][x].g + noise[y][x].g <= INT16_MAX &&
            f[y][x].b + noise[y][x].b <= INT16_MAX)
  {
    assert PixelInRange(f[y][x]);
    assert IsInt16(noise[y][x].r) && IsInt16(noise[y][x].g) && IsInt16(noise[y][x].b);
    GrainSampleIsClamp(f[y][x].r, noise[y][x].r);
    GrainSampleIsClamp(f[y][x].g, noise[y][x].g);
    GrainSampleIsClamp(f[y][x].b, noise[y][x].b);
  }
}
