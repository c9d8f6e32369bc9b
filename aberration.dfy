/** The chromatic-aberration stage of `effect`: the red plane is rolled left and
    the blue plane rolled right by a width-dependent number of columns, with
    wrap-around; the green plane is left in place. */
module Aberration {
  import opened Pixels

  /** The shift in columns, max(1, width // 640 * 2), where width is the width the
      effect was built for. */
  function Shift(width: nat): (s: nat)
    ensures s >= 1
    ensures width < 640 ==> s == 1
    ensures width >= 640 ==> s == 2 * (width / 640)
  {
    var scaled := width / 640 * 2;
    if scaled > 1 then scaled else 1
  }

  /** The sequence started at index c and continued from the front: s[c..] + s[..c]. */
  function Rotate<T>(s: seq<T>, c: nat): (r: seq<T>)
    requires c <= |s|
    ensures |r| == |s|
  {
    s[c..] + s[..c]
  }

  /** np.roll(s, k): the last k mod |s| elements move to the front, so a positive k
      moves every element k places to the right and a negative k to the left,
      wrapping around at the ends. */
  function Roll<T>(s: seq<T>, k: int): (r: seq<T>)
    ensures |r| == |s|
  {
    if |s| == 0 then s else Rotate(s, (-k) % |s|)
  }

  /** Two rotations add up, wrapping at the length. */
  lemma RotateRotate<T>(s: seq<T>, c1: nat, c2: nat)
    requires c1 < |s| && c2 < |s|
    ensures Rotate(Rotate(s, c1), c2) == Rotate(s, if c1 + c2 < |s| then c1 + c2 else c1 + c2 - |s|)
  {
    var n := |s|;
    var c := if c1 + c2 < n then c1 + c2 else c1 + c2 - n;
    var t := Rotate(s, c1);
    forall i | 0 <= i < n
      ensures Rotate(t, c2)[i] == Rotate(s, c)[i]
    {
      var j := if i + c2 < n then i + c2 else i + c2 - n;
      assert Rotate(t, c2)[i] == t[j];
      assert t[j] == s[if j + c1 < n then j + c1 else j + c1 - n];
    }
  }

  /** Element i of a roll by k is element (i - k) mod |s| of the input. */
  lemma RollAt<T>(s: seq<T>, k: int, i: int)
    requires 0 <= i < |s|
    ensures Roll(s, k)[i] == s[(i - k) % |s|]
  {
    ModCut(i, k, |s|);
  }

  /** The element at index i lands at index (i + k) mod |s|. */
  lemma RollMoves<T>(s: seq<T>, k: int, i: int)
    requires 0 <= i < |s|
    ensures Roll(s, k)[(i + k) % |s|] == s[i]
  {
    RollAt(s, k, (i + k) % |s|);
    ModShiftBack(i, k, |s|);
  }

  /** Two rolls add up. */
  lemma RollRoll<T>(s: seq<T>, a: int, b: int)
    ensures Roll(Roll(s, a), b) == Roll(s, a + b)
  {
    var n := |s|;
    if n > 0 {
      CutSum(a, b, n);
      RotateRotate(s, (-a) % n, (-b) % n);
    }
  }

  /** Rolling by nothing changes nothing. */
  lemma RollZero<T>(s: seq<T>)
    ensures Roll(s, 0) == s
  {
    if |s| > 0 {
      assert s[0..] + s[..0] == s;
    }
  }

  /** Rolling back by the same amount restores the sequence. */
  lemma RollInverse<T>(s: seq<T>, k: int)
    ensures Roll(Roll(s, k), -k) == s
  {
    RollRoll(s, k, -k);
    RollZero(s);
  }

  /** Rolling permutes the elements. */
  lemma RollPermutes<T>(s: seq<T>, k: int)
    ensures multiset(Roll(s, k)) == multiset(s)
  {
    if |s| > 0 {
      var c := (-k) % |s|;
      assert s == s[..c] + s[c..];
    }
  }

  /** A sequence whose elements are all equal is unchanged by any roll. */
  lemma RollConstant<T>(s: seq<T>, k: int)
    requires forall i :: 0 <= i < |s| ==> s[i] == s[0]
    ensures Roll(s, k) == s
  {
  }

  /** np.roll(p, k, axis=1): every row of the plane rolled by k. */
  function RollPlane(p: Plane, k: int): (q: Plane)
    ensures SameShape(q, p)
  {
    seq(|p|, y requires 0 <= y < |p| => Roll(p[y], k))
  }

  /** The stage: red rolled left by Shift(width), green kept, blue rolled right. */
  function Aberrate(f: Frame, width: nat): (g: Frame)
    ensures SameShape(g, f)
  {
    var s: int := Shift(width);
    Stack(RollPlane(PlaneOf(f, Red), -s), PlaneOf(f, Green), RollPlane(PlaneOf(f, Blue), s))
  }

  /** Pixel (y, x) of the result takes its red sample from column x + shift and its
      blue sample from column x - shift, both modulo the row width, and keeps its
      green sample. */
  lemma AberrateAt(f: Frame, width: nat, y: int, x: int)
    requires 0 <= y < |f| && 0 <= x < |f[y]|
    ensures Aberrate(f, width)[y][x] ==
      Rgb(f[y][(x + Shift(width)) % |f[y]|].r, f[y][x].g, f[y][(x - Shift(width)) % |f[y]|].b)
  {
    var s: int := Shift(width);
    var n := |f[y]|;
    var red, blue := PlaneOf(f, Red)[y], PlaneOf(f, Blue)[y];
    var g: Frame := Aberrate(f, width);
    assert g[y][x].r == Roll(red, -s)[x];
    assert g[y][x].b == Roll(blue, s)[x];
    RollAt(red, -s, x);
    RollAt(blue, s, x);
    var xr, xb := (x + s) % n, (x - s) % n;
    assert (x - -s) % n == xr;
    assert red[xr] == f[y][xr].r;
    assert blue[xb] == f[y][xb].b;
  }

  /** Rolling moves samples without changing them, so 8-bit frames stay 8-bit. */
  lemma AberrateInRange(f: Frame, width: nat)
    requires FrameInRange(f)
    ensures FrameInRange(Aberrate(f, width))
  {
    var g := Aberrate(f, width);
    forall y, x | 0 <= y < |g| && 0 <= x < |g[y]|
      ensures PixelInRange(g[y][x])
    {
      AberrateAt(f, width, y, x);
    }
  }

  /** The opposite rolls: red right and blue left by the same shift. */
  function Unaberrate(g: Frame, width: nat): (f: Frame)
    ensures SameShape(f, g)
  {
    var s: int := Shift(width);
    Stack(RollPlane(PlaneOf(g, Red), s), PlaneOf(g, Green), RollPlane(PlaneOf(g, Blue), -s))
  }

  /** Rolling red back right and blue back left restores the input frame. */
  lemma AberrateUndone(f: Frame, width: nat)
    ensures Unaberrate(Aberrate(f, width), width) == f
  {
    var g := Aberrate(f, width);
    var h := Unaberrate(g, width);
    forall y | 0 <= y < |f|
      ensures h[y] == f[y]
    {
      UndoneRow(f, width, y);
    }
  }

  lemma UndoneRow(f: Frame, width: nat, y: int)
    requires 0 <= y < |f|
    ensures Unaberrate(Aberrate(f, width), width)[y] == f[y]
  {
    var s: int := Shift(width);
    var g := Aberrate(f, width);
    var h := Unaberrate(g, width);
    var red, blue := PlaneOf(f, Red)[y], PlaneOf(f, Blue)[y];
    assert PlaneOf(g, Red)[y] == Roll(red, -s);
    assert PlaneOf(g, Blue)[y] == Roll(blue, s);
    RollInverse(red, -s);
    RollInverse(blue, s);
    assert - -s == s;
    forall x | 0 <= x < |f[y]|
      ensures h[y][x] == f[y][x]
    {
      assert h[y][x].r == Roll(Roll(red, -s), s)[x];
      assert h[y][x].b == Roll(Roll(blue, s), -s)[x];
    }
  }

  /** Each row of the red plane, and each row of the blue plane, ends up holding
      the same samples as before, only in a different order. */
  lemma AberratePermutesRows(f: Frame, width: nat, y: int)
    requires 0 <= y < |f|
    ensures multiset(PlaneOf(Aberrate(f, width), Red)[y]) == multiset(PlaneOf(f, Red)[y])
    ensures multiset(PlaneOf(Aberrate(f, width), Blue)[y]) == multiset(PlaneOf(f, Blue)[y])
    ensures PlaneOf(Aberrate(f, width), Green)[y] == PlaneOf(f, Green)[y]
  {
    var s: int := Shift(width);
    var g := Aberrate(f, width);
    assert PlaneOf(g, Red)[y] == Roll(PlaneOf(f, Red)[y], -s);
    assert PlaneOf(g, Blue)[y] == Roll(PlaneOf(f, Blue)[y], s);
    RollPermutes(PlaneOf(f, Red)[y], -s);
    RollPermutes(PlaneOf(f, Blue)[y], s);
  }

  /** A frame whose every row is one colour throughout is not changed. */
  lemma AberrateRowConstant(f: Frame, width: nat)
    requires forall y, x :: 0 <= y < |f| && 0 <= x < |f[y]| ==> f[y][x] == f[y][0]
    ensures Aberrate(f, width) == f
  {
    var g := Aberrate(f, width);
    forall y | 0 <= y < |f|
      ensures g[y] == f[y]
    {
      forall x | 0 <= x < |f[y]|
        ensures g[y][x] == f[y][x]
      {
        AberrateAt(f, width, y, x);
      }
    }
  }

  /** A red sample at column c moves to column (c - shift) mod W and a blue sample
      to (c + shift) mod W: a one-pixel vertical stripe moves that way. */
  lemma AberrateMovesStripes(f: Frame, width: nat, y: int, c: int)
    requires 0 <= y < |f| && 0 <= c < |f[y]|
    ensures Aberrate(f, width)[y][(c - Shift(width)) % |f[y]|].r == f[y][c].r
    ensures Aberrate(f, width)[y][(c + Shift(width)) % |f[y]|].b == f[y][c].b
  {
    var s, n := Shift(width), |f[y]|;
    AberrateAt(f, width, y, (c - s) % n);
    AberrateAt(f, width, y, (c + s) % n);
    ModBackAndForth(c, s, n);
  }
}
