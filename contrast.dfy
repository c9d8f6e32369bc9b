/** The contrast and brightness stage of `effect`: every sample is pushed away from
    mid-grey by a gain of 1.06, raised by a bias of 4, clipped to [0, 255] and
    truncated to 8 bits. The gain is the exact rational 106/100 here; the source
    computes in float64. */
module Grading {
  import opened Pixels

  const GAIN_NUM := 106
  const GAIN_DEN := 100
  const PIVOT := 128
  const BIAS := 4

  /** 128 + 1.06 * (c - 128) + 4 with the exact gain, floored, before clipping. */
  function Unclipped(c: int): int {
    PIVOT + (GAIN_NUM * (c - PIVOT)) / GAIN_DEN + BIAS
  }

  /** floor(128 + 1.06 * (c - 128) + 4), clipped to [0, 255]. Clipping to integer
      bounds commutes with the floor, so this is also np.clip followed by the
      truncating cast to uint8 (which is a floor on the non-negative clipped value). */
  function Contrast(c: int): (r: int)
    ensures IsByte(r)
    ensures c == PIVOT ==> r == PIVOT + BIAS
  {
    ClampByte(Unclipped(c))
  }

  /** The grading formula over exact reals, before clipping. */
  function ExactGrade(c: int): real {
    128.0 + 1.06 * ((c - 128) as real) + 4.0
  }

  /** np.clip(x, 0, 255) over reals. */
  function ClipReal(x: real): real {
    if x < 0.0 then 0.0 else if x > 255.0 then 255.0 else x
  }

  /** The integer stage is the exact real formula, clipped and then truncated. */
  lemma ContrastIsTruncatedExact(c: int)
    ensures Contrast(c) == ClipReal(ExactGrade(c)).Floor
  {
    var d := c - PIVOT;
    var q := (GAIN_NUM * d) / GAIN_DEN;
    assert 100 * q <= 106 * d < 100 * q + 100;
    var x := ExactGrade(c);
    assert x == 132.0 + (106 * d) as real / 100.0;
    assert (q as real) <= (106 * d) as real / 100.0 < (q as real) + 1.0 by {
      assert (100 * q) as real <= (106 * d) as real < (100 * q + 100) as real;
    }
    assert ((132 + q) as real) <= x < ((132 + q) as real) + 1.0;
    assert x.Floor == 132 + q;
  }

  lemma DivMonotone(x: int, y: int)
    requires x <= y
    ensures x / GAIN_DEN <= y / GAIN_DEN
  {
  }

  /** A brighter input never gives a darker output. */
  lemma ContrastMonotone(a: int, b: int)
    requires a <= b
    ensures Contrast(a) <= Contrast(b)
  {
    assert GAIN_NUM * (a - PIVOT) <= GAIN_NUM * (b - PIVOT);
    DivMonotone(GAIN_NUM * (a - PIVOT), GAIN_NUM * (b - PIVOT));
    ClampByteMonotone(Unclipped(a), Unclipped(b));
  }

  /** While neither value is clipped, the gain above 1 spreads two samples at least
      as far apart as they were: the stage increases contrast. */
  lemma ContrastStretches(a: int, b: int)
    requires a <= b
    requires 0 <= Unclipped(a) && Unclipped(b) <= 255
    ensures Contrast(b) - Contrast(a) >= b - a
  {
    var da, db := a - PIVOT, b - PIVOT;
    var lo := GAIN_NUM * da + GAIN_DEN * (db - da);
    assert GAIN_NUM * db - lo == 6 * (db - da);
    DivMonotone(lo, GAIN_NUM * db);
    ModUnique(lo, GAIN_DEN, (GAIN_NUM * da) / GAIN_DEN + (db - da), (GAIN_NUM * da) % GAIN_DEN);
  }

  /** The stage over a whole frame, sample by sample in every channel. */
  function ContrastFrame(f: Frame): (g: Frame)
    ensures SameShape(g, f)
    ensures FrameInRange(g)
  {
    seq(|f|, y requires 0 <= y < |f| =>
      seq(|f[y]|, x requires 0 <= x < |f[y]| =>
        Rgb(Contrast(f[y][x].r), Contrast(f[y][x].g), Contrast(f[y][x].b))))
  }

  /** Grading two frames of one shape keeps their pixel-wise order. */
  lemma ContrastFrameMonotone(f: Frame, h: Frame)
    requires SameShape(f, h)
    requires forall y, x :: 0 <= y < |f| && 0 <= x < |f[y]| ==>
      f[y][x].r <= h[y][x].r && f[y][x].g <= h[y][x].g && f[y][x].b <= h[y][x].b
    ensures forall y, x :: 0 <= y < |f| && 0 <= x < |f[y]| ==>
      ContrastFrame(f)[y][x].r <= ContrastFrame(h)[y][x].r &&
      ContrastFrame(f)[y][x].g <= ContrastFrame(h)[y][x].g &&
      ContrastFrame(f)[y][x].b <= ContrastFrame(h)[y][x].b
  {
    forall y, x | 0 <= y < |f| && 0 <= x < |f[y]|
      ensures ContrastFrame(f)[y][x].r <= ContrastFrame(h)[y][x].r
      ensures ContrastFrame(f)[y][x].g <= ContrastFrame(h)[y][x].g
      ensures ContrastFrame(f)[y][x].b <= ContrastFrame(h)[y][x].b
    {
      ContrastMonotone(f[y][x].r, h[y][x].r);
      ContrastMonotone(f[y][x].g, h[y][x].g);
      ContrastMonotone(f[y][x].b, h[y][x].b);
    }
  }
}
