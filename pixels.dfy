/** Shared vocabulary of the effect stack: RGB pixels, frames as rows of pixels,
    single-channel planes, the 8-bit clip, and the modular arithmetic that
    wrap-around indexing needs. */
module Pixels {

  /** One pixel of an H x W x 3 frame. Samples are unbounded integers so that the
      int16 intermediates of the pipeline can be represented; `FrameInRange`
      says when a frame holds genuine 8-bit samples. */
  datatype Rgb = Rgb(r: int, g: int, b: int)

  datatype Channel = Red | Green | Blue

  /** A frame, row-major: f[y][x] is the pixel in row y, column x. */
  type Frame = seq<seq<Rgb>>

  /** One channel of a frame, as numpy's img[:, :, c]. */
  type Plane = seq<seq<int>>

  predicate IsByte(x: int) {
    0 <= x <= 255
  }

  predicate PixelInRange(p: Rgb) {
    IsByte(p.r) && IsByte(p.g) && IsByte(p.b)
  }

  predicate FrameInRange(f: Frame) {
    forall y, x :: 0 <= y < |f| && 0 <= x < |f[y]| ==> PixelInRange(f[y][x])
  }

  /** f and g have the same number of rows and each row the same length. */
  predicate SameShape<A, B>(f: seq<seq<A>>, g: seq<seq<B>>) {
    |f| == |g| && forall y :: 0 <= y < |f| ==> |f[y]| == |g[y]|
  }

  function Sample(p: Rgb, c: Channel): int {
    match c
    case Red => p.r
    case Green => p.g
    case Blue => p.b
  }

  /** np.clip(x, 0, 255) on an integer sample. */
  function ClampByte(x: int): (r: int)
    ensures IsByte(r)
    ensures IsByte(x) ==> r == x
    ensures x < 0 ==> r == 0
    ensures x > 255 ==> r == 255
  {
    if x < 0 then 0 else if x > 255 then 255 else x
  }

  lemma ClampByteMonotone(a: int, b: int)
    requires a <= b
    ensures ClampByte(a) <= ClampByte(b)
  {
  }

  /** The plane of channel c, as img[:, :, c]. */
  function PlaneOf(f: Frame, c: Channel): (p: Plane)
    ensures SameShape(p, f)
  {
    seq(|f|, y requires 0 <= y < |f| =>
      seq(|f[y]|, x requires 0 <= x < |f[y]| => Sample(f[y][x], c)))
  }

  /** np.stack([r, g, b], axis=2): the three planes must agree in shape. */
  function Stack(rp: Plane, gp: Plane, bp: Plane): (f: Frame)
    requires SameShape(rp, gp) && SameShape(rp, bp)
    ensures SameShape(f, rp)
  {
    seq(|rp|, y requires 0 <= y < |rp| =>
      seq(|rp[y]|, x requires 0 <= x < |rp[y]| => Rgb(rp[y][x], gp[y][x], bp[y][x])))
  }

  /** Taking a stacked frame apart again gives back the three planes. */
  lemma PlanesOfStack(rp: Plane, gp: Plane, bp: Plane)
    requires SameShape(rp, gp) && SameShape(rp, bp)
    ensures PlaneOf(Stack(rp, gp, bp), Red) == rp
    ensures PlaneOf(Stack(rp, gp, bp), Green) == gp
    ensures PlaneOf(Stack(rp, gp, bp), Blue) == bp
  {
    var f := Stack(rp, gp, bp);
    forall y | 0 <= y < |rp|
      ensures PlaneOf(f, Red)[y] == rp[y] && PlaneOf(f, Green)[y] == gp[y] && PlaneOf(f, Blue)[y] == bp[y]
    {
    }
  }

  /** Stacking the three planes of a frame gives back the frame. */
  lemma StackOfPlanes(f: Frame)
    ensures Stack(PlaneOf(f, Red), PlaneOf(f, Green), PlaneOf(f, Blue)) == f
  {
    var g := Stack(PlaneOf(f, Red), PlaneOf(f, Green), PlaneOf(f, Blue));
    forall y | 0 <= y < |f|
      ensures g[y] == f[y]
    {
    }
  }

  /** Euclidean division is unique: a quotient and remainder that fit are the ones. */
  lemma ModUnique(x: int, n: int, q: int, m: int)
    requires n > 0 && 0 <= m < n && x == q * n + m
    ensures x % n == m && x / n == q
  {
    var q', m' := x / n, x % n;
    var d := q - q';
    assert d * n == m' - m by {
      assert q * n - q' * n == d * n;
    }
    if d > 0 {
      MulGrows(d, n);
    } else if d < 0 {
      MulGrows(-d, n);
    }
  }

  lemma MulGrows(d: int, n: int)
    requires d >= 1 && n > 0
    ensures d * n >= n
  {
    assert d * n == (d - 1) * n + n;
    assert (d - 1) * n >= 0;
  }

  /** Adding a multiple of the modulus does not change the remainder. */
  lemma ModAddMultiple(x: int, q: int, n: int)
    requires n > 0
    ensures (x + q * n) % n == x % n
  {
    ModUnique(x + q * n, n, x / n + q, x % n);
  }

  /** Reducing an addend first does not change the remainder of a sum. */
  lemma ModOfSum(x: int, a: int, n: int)
    requires n > 0
    ensures (x % n + a) % n == (x + a) % n
  {
    assert x + a == x % n + a + (x / n) * n;
    ModAddMultiple(x % n + a, x / n, n);
  }

  /** Index i of a rotation by the cut (-k) mod n is index (i - k) mod n. */
  lemma ModCut(i: int, k: int, n: int)
    requires n > 0 && 0 <= i < n
    ensures (i - k) % n == (if i + (-k) % n < n then i + (-k) % n else i + (-k) % n - n)
  {
    var c := (-k) % n;
    ModOfSum(-k, i, n);
    if c + i < n {
      ModUnique(c + i, n, 0, c + i);
    } else {
      ModUnique(c + i, n, 1, c + i - n);
    }
  }

  /** Moving forward by k and back by k, modulo n, returns to the start. */
  lemma ModShiftBack(i: int, k: int, n: int)
    requires n > 0 && 0 <= i < n
    ensures ((i + k) % n - k) % n == i
  {
    ModOfSum(i + k, -k, n);
    ModUnique(i, n, 0, i);
  }

  /** The cut of a roll by a + b is the sum of the cuts of a and b, wrapped once. */
  lemma CutSum(a: int, b: int, n: int)
    requires n > 0
    ensures (-(a + b)) % n ==
      (if (-a) % n + (-b) % n < n then (-a) % n + (-b) % n else (-a) % n + (-b) % n - n)
  {
    var ca, cb := (-a) % n, (-b) % n;
    var qa, qb := (-a) / n, (-b) / n;
    var sum := ca + cb;
    assert -(a + b) == (qa + qb) * n + sum by {
      assert -a == qa * n + ca && -b == qb * n + cb;
      assert (qa + qb) * n == qa * n + qb * n;
    }
    if sum < n {
      ModUnique(-(a + b), n, qa + qb, sum);
    } else {
      assert (qa + qb + 1) * n == (qa + qb) * n + n;
      ModUnique(-(a + b), n, qa + qb + 1, sum - n);
    }
  }

  /** Stepping back by s and then forward by s, or the other way round, modulo n,
      returns to the start. */
  lemma ModBackAndForth(c: int, s: int, n: int)
    requires n > 0 && 0 <= c < n
    ensures ((c - s) % n + s) % n == c
    ensures ((c + s) % n - s) % n == c
  {
    ModOfSum(c - s, s, n);
    ModOfSum(c + s, -s, n);
    ModUnique(c, n, 0, c);
  }
}
