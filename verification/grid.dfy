/** Rectangular pixel grids shared by every stage of the collage pipeline.

    An image is a row-major `seq<seq<_>>`; row index first (numpy axis 0),
    column index second (numpy axis 1). Channel values are only ever copied
    or compared with zero, so they are modelled as exact reals. */
module Grid {

  /** One pixel of a four-channel image: three colour channels and the alpha
      (coverage) channel. Alpha 0 means "not covered". */
  datatype Pixel = Pixel(r: real, g: real, b: real, a: real)

  type Image = seq<seq<Pixel>>

  /** The pixel numpy writes when it assigns the scalar 0 to every channel. */
  const Zero: Pixel := Pixel(0.0, 0.0, 0.0, 0.0)

  /** A pixel counts as non-zero when any of its four channels is non-zero. */
  predicate NonZero(p: Pixel) {
    p.r != 0.0 || p.g != 0.0 || p.b != 0.0 || p.a != 0.0
  }

  predicate Covered(p: Pixel) {
    p.a != 0.0
  }

  /** `g` has `h` rows of `w` cells each. */
  predicate IsGrid<T>(g: seq<seq<T>>, h: nat, w: nat) {
    |g| == h && forall i :: 0 <= i < h ==> |g[i]| == w
  }

  /** Number of columns; an image without rows has none. */
  function Width<T>(g: seq<seq<T>>): nat {
    if |g| == 0 then 0 else |g[0]|
  }

  predicate Rectangular<T>(g: seq<seq<T>>) {
    IsGrid(g, |g|, Width(g))
  }

  /** The slice `g[r0:r1, c0:c1]`. */
  function Crop<T>(g: seq<seq<T>>, r0: nat, r1: nat, c0: nat, c1: nat): (c: seq<seq<T>>)
    requires Rectangular(g) && r0 <= r1 <= |g| && c0 <= c1 <= Width(g)
    ensures IsGrid(c, r1 - r0, c1 - c0)
    ensures forall i, j :: 0 <= i < r1 - r0 && 0 <= j < c1 - c0 ==> c[i][j] == g[r0 + i][c0 + j]
  {
    seq(r1 - r0, i requires 0 <= i < r1 - r0 => g[r0 + i][c0..c1])
  }

  /** Coordinates of the covered pixels of a canvas. */
  function CoveredSet(canvas: Image): set<(int, int)> {
    set a, b | 0 <= a < |canvas| && 0 <= b < |canvas[a]| && Covered(canvas[a][b]) :: (a, b)
  }

  /** The two exceptions this model represents. */
  datatype Error =
    | AllBackground     // get_aabb on an image without a non-zero pixel (IndexError)
    | ZeroSizeLabelMap  // np.amax over an empty label map (ValueError)

  datatype Result<T> = Success(value: T) | Failure(error: Error)

  datatype Option<T> = None | Some(value: T)

  function Max(x: int, y: int): int { if x < y then y else x }

  function Min(x: int, y: int): int { if x < y then x else y }

  /** A subset is no larger than its superset. */
  lemma {:induction false} SubsetCard<T>(s: set<T>, t: set<T>)
    requires s <= t
    ensures |s| <= |t|
    decreases s
  {
    if s != {} {
      var x :| x in s;
      SubsetCard(s - {x}, t - {x});
    }
  }

  /** A proper subset is strictly smaller. */
  lemma ProperSubsetCard<T>(s: set<T>, t: set<T>, x: T)
    requires s <= t && x in t && x !in s
    ensures |s| < |t|
  {
    SubsetCard(s, t - {x});
  }
}
