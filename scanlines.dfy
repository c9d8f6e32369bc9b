/** The scanline overlay of `make_scanline_image`, before its Gaussian blur: an
    RGBA image, transparent black everywhere except on full-width horizontal
    bands of `lineHeight` rows, repeated every `lineHeight + gap` rows from the
    top, which are black with a fixed alpha. */
module Scanlines {
  import Pixels

  datatype Rgba = Rgba(r: int, g: int, b: int, a: int)

  const TRANSPARENT := Rgba(0, 0, 0, 0)

  /** int(255 * intensity): Python's int() truncates toward zero, which for the
      documented intensities in [0, 1] is the floor, not rounding. */
  function AlphaLine(intensity: real): (a: int)
    requires 0.0 <= intensity <= 1.0
    ensures 0 <= a <= 255
    ensures a as real <= 255.0 * intensity < a as real + 1.0
  {
    (255.0 * intensity).Floor
  }

  /** The default intensity 0.08 gives alpha 20, and an intensity of one half
      gives 127: the product 127.5 is truncated, not rounded. */
  lemma AlphaLineTruncates()
    ensures AlphaLine(0.08) == 20
    ensures AlphaLine(0.5) == 127
  {
    assert 255.0 * 0.08 == 20.4;
    assert 255.0 * 0.5 == 127.5;
  }

  function Period(lineHeight: nat, gap: nat): nat {
    lineHeight + gap
  }

  /** Row `row` lies on a band: its offset within its period is below lineHeight. */
  predicate InBand(row: nat, lineHeight: nat, gap: nat)
    requires lineHeight >= 1
  {
    row % Period(lineHeight, gap) < lineHeight
  }

  /** The colour every pixel of row `row` has once all bands are painted. */
  function ScanlinePixel(row: nat, lineHeight: nat, gap: nat, alpha: int): Rgba
    requires lineHeight >= 1
  {
    if InBand(row, lineHeight, gap) then Rgba(0, 0, 0, alpha) else TRANSPARENT
  }

  /** The rows the band loop paints, read off its steps: started at row y of an
      image of height h, it paints y .. min(h, y + lineHeight - 1) and goes on at
      y + lineHeight + gap, until y reaches h. */
  predicate PaintedFrom(y: nat, row: nat, h: nat, lineHeight: nat, gap: nat)
    requires lineHeight >= 1
    decreases h - y
  {
    y < h &&
    ((y <= row <= Min(h, y + lineHeight - 1)) ||
     PaintedFrom(y + lineHeight + gap, row, h, lineHeight, gap))
  }

  function Min(a: int, b: int): int {
    if a <= b then a else b
  }

  /** A row of the image is painted by the loop exactly when it lies on a band.
      `MakeScanlineImage` states its result through `InBand` directly; this lemma
      is an independent cross-check that a step-by-step reading of the same loop
      (`PaintedFrom`) picks out the same rows. */
  lemma PaintedIffInBand(row: nat, h: nat, lineHeight: nat, gap: nat)
    requires lineHeight >= 1 && row < h
    ensures PaintedFrom(0, row, h, lineHeight, gap) <==> InBand(row, lineHeight, gap)
  {
    PaintedFromBand(0, row, h, lineHeight, gap);
  }

  /** From the start of the k-th period on, the loop paints exactly the band rows
      at or below that start. */
  lemma {:induction false} PaintedFromBand(k: nat, row: nat, h: nat, lineHeight: nat, gap: nat)
    requires lineHeight >= 1 && row < h
    ensures PaintedFrom(k * Period(lineHeight, gap), row, h, lineHeight, gap) <==>
      (k * Period(lineHeight, gap) <= row && InBand(row, lineHeight, gap))
    decreases h - k * Period(lineHeight, gap)
  {
    var p := Period(lineHeight, gap);
    var y := k * p;
    if y < h {
      assert (k + 1) * p == y + lineHeight + gap;
      PaintedFromBand(k + 1, row, h, lineHeight, gap);
      if y <= row < y + p {
        Pixels.ModUnique(row, p, k, row - y);
      }
    }
  }

  /** The band pattern repeats every lineHeight + gap rows. */
  lemma ScanlinePeriodic(row: nat, lineHeight: nat, gap: nat, alpha: int)
    requires lineHeight >= 1
    ensures ScanlinePixel(row + Period(lineHeight, gap), lineHeight, gap, alpha) ==
      ScanlinePixel(row, lineHeight, gap, alpha)
  {
    Pixels.ModAddMultiple(row, 1, Period(lineHeight, gap));
  }

  /** draw.rectangle([0, top, w, bottom], fill=colour) on the image: every column
      of rows top .. bottom (inclusive), clipped to the image, gets the colour. */
  method FillRows(img: array2<Rgba>, top: int, bottom: int, colour: Rgba)
    modifies img
    ensures forall row, col :: 0 <= row < img.Length0 && 0 <= col < img.Length1 ==>
      img[row, col] == (if top <= row <= bottom then colour else old(img[row, col]))
  {
    forall row, col | 0 <= row < img.Length0 && 0 <= col < img.Length1 && top <= row <= bottom {
      img[row, col] := colour;
    }
  }

  /** make_scanline_image(w, h, intensity, lineHeight, gap) up to the blur: indexed
      [row, column], so Length0 is the height h and Length1 the width w. */
  method MakeScanlineImage(w: nat, h: nat, intensity: real, lineHeight: nat, gap: nat)
    returns (img: array2<Rgba>)
    requires 0.0 <= intensity <= 1.0
    requires lineHeight >= 1
    ensures fresh(img)
    ensures img.Length0 == h && img.Length1 == w
    ensures forall row, col :: 0 <= row < h && 0 <= col < w ==>
      img[row, col] == ScanlinePixel(row, lineHeight, gap, AlphaLine(intensity))
  {
    img := new Rgba[h, w]((_, _) => TRANSPARENT);
    var alpha := AlphaLine(intensity);
    var p := Period(lineHeight, gap);
    var y := 0;
    ghost var k := 0;
    while y < h
      invariant y == k * p
      invariant forall row, col :: 0 <= row < h && 0 <= col < w ==>
        img[row, col] == (if row < y then ScanlinePixel(row, lineHeight, gap, alpha) else TRANSPARENT)
      decreases h - y
    {
      FillRows(img, y, Min(h, y + lineHeight - 1), Rgba(0, 0, 0, alpha));
      forall row | y <= row < y + p
        ensures row % p == row - y
      {
        Pixels.ModUnique(row, p, k, row - y);
      }
      y := y + lineHeight + gap;
      k := k + 1;
    }
  }
}
