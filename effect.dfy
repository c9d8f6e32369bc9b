/** The integer prefix of the per-frame `effect`: chromatic aberration, then
    contrast and brightness, then grain. Each stage builds a new frame from the
    previous one; the input frame is a value and is never changed. */
module Effect {
  import opened Pixels
  import Aberration
  import Grading
  import Grain

  /** The stages of `effect` up to the unsharp mask, for the width the effect was
      built for and a caller-supplied int16 noise buffer. */
  function Stages(f: Frame, width: nat, noise: Frame): (g: Frame)
    requires Grain.IsNoise(noise, f)
    ensures SameShape(g, f)
    ensures FrameInRange(g)
  {
    Grain.Grain(Grading.ContrastFrame(Aberration.Aberrate(f, width)), noise)
  }

  /** Each output sample, written out: the red sample is taken from `shift` columns
      to the right and the blue from `shift` columns to the left (modulo the row
      width), graded, and then the noise is added and the sum clipped. */
  lemma StagesAt(f: Frame, width: nat, noise: Frame, y: int, x: int)
    requires Grain.IsNoise(noise, f)
    requires 0 <= y < |f| && 0 <= x < |f[y]|
    ensures Stages(f, width, noise)[y][x] ==
      Rgb(Grain.GrainSample(Grading.Contrast(f[y][(x + Aberration.Shift(width)) % |f[y]|].r), noise[y][x].r),
          Grain.GrainSample(Grading.Contrast(f[y][x].g), noise[y][x].g),
          Grain.GrainSample(Grading.Contrast(f[y][(x - Aberration.Shift(width)) % |f[y]|].b), noise[y][x].b))
  {
    Aberration.AberrateAt(f, width, y, x);
  }

  /** A flat grey frame of (128, 128, 128) without noise comes out as
      (132, 132, 132) everywhere: the shift has nothing to move, the gain nothing
      to scale, and only the bias of 4 is left. */
  lemma FlatGrey(f: Frame, width: nat)
    requires forall y, x :: 0 <= y < |f| && 0 <= x < |f[y]| ==> f[y][x] == Rgb(128, 128, 128)
    ensures forall y, x :: 0 <= y < |f| && 0 <= x < |f[y]| ==>
      Stages(f, width, Grain.ZeroNoise(f))[y][x] == Rgb(132, 132, 132)
  {
    Aberration.AberrateRowConstant(f, width);
  }
}
