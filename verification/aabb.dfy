/** The bounding-box reducer `get_aabb`: crop an image to the tightest row
    and column range holding a non-zero pixel. */
module Aabb {
  import opened Grid

  /** Row `r` holds a pixel with some non-zero channel (`np.any(img, axis=1)`). */
  predicate RowOccupied(img: Image, r: int) {
    0 <= r < |img| && exists c :: 0 <= c < |img[r]| && NonZero(img[r][c])
  }

  /** Column `c` holds a pixel with some non-zero channel (`np.any(img, axis=0)`). */
  predicate ColOccupied(img: Image, c: int) {
    0 <= c && exists r :: 0 <= r < |img| && c < |img[r]| && NonZero(img[r][c])
  }

  predicate AllZero(img: Image) {
    forall r, c :: 0 <= r < |img| && 0 <= c < |img[r]| ==> !NonZero(img[r][c])
  }

  predicate Increasing(s: seq<nat>) {
    forall m, n :: 0 <= m < n < |s| ==> s[m] < s[n]
  }

  /** `np.where(rows)[0]` restricted to rows `k..`: the occupied rows in ascending order. */
  function OccupiedRowsFrom(img: Image, k: nat): (rows: seq<nat>)
    ensures forall n :: 0 <= n < |rows| ==> k <= rows[n] && RowOccupied(img, rows[n])
    ensures forall r :: k <= r && RowOccupied(img, r) ==> r in rows
    ensures Increasing(rows)
    decreases |img| - k
  {
    if k >= |img| then []
    else if RowOccupied(img, k) then [k] + OccupiedRowsFrom(img, k + 1)
    else OccupiedRowsFrom(img, k + 1)
  }

  /** `np.where(cols)[0]` restricted to columns `k..`: the occupied columns in ascending order. */
  function OccupiedColsFrom(img: Image, k: nat): (cols: seq<nat>)
    requires Rectangular(img)
    ensures forall n :: 0 <= n < |cols| ==> k <= cols[n] && ColOccupied(img, cols[n])
    ensures forall c :: k <= c && ColOccupied(img, c) ==> c in cols
    ensures Increasing(cols)
    decreases Width(img) - k
  {
    if k >= Width(img) then []
    else if ColOccupied(img, k) then [k] + OccupiedColsFrom(img, k + 1)
    else OccupiedColsFrom(img, k + 1)
  }

  /** Inclusive row range `rmin..rmax` and column range `cmin..cmax`. */
  datatype Box = Box(rmin: nat, rmax: nat, cmin: nat, cmax: nat)

  predicate Inside(b: Box, r: int, c: int) {
    b.rmin <= r <= b.rmax && b.cmin <= c <= b.cmax
  }

  /** `b` is the tight box of the non-zero pixels of `img`: it lies in the
      image, every non-zero pixel is inside it, and each of its four edges
      touches a non-zero pixel. */
  predicate TightBox(img: Image, b: Box) {
    && b.rmin <= b.rmax < |img| && b.cmin <= b.cmax < Width(img)
    && RowOccupied(img, b.rmin) && RowOccupied(img, b.rmax)
    && ColOccupied(img, b.cmin) && ColOccupied(img, b.cmax)
    && forall r, c :: 0 <= r < |img| && 0 <= c < |img[r]| && NonZero(img[r][c]) ==> Inside(b, r, c)
  }

  /** First and last entries of the occupied row and column lists. */
  function BoundingBox(img: Image): (b: Option<Box>)
    requires Rectangular(img)
    ensures b.None? <==> AllZero(img)
    ensures b.Some? ==> TightBox(img, b.value)
  {
    var rows := OccupiedRowsFrom(img, 0);
    var cols := OccupiedColsFrom(img, 0);
    OccupiedListsEmpty(img);
    if |rows| == 0 || |cols| == 0 then
      None
    else
      var b := Box(rows[0], rows[|rows| - 1], cols[0], cols[|cols| - 1]);
      assert TightBox(img, b) by {
        assert RowOccupied(img, b.rmax) && b.rmax < |img|;
        var c0 :| 0 <= c0 < |img[b.rmax]| && NonZero(img[b.rmax][c0]);
        var r1 :| 0 <= r1 < |img| && b.cmax < |img[r1]| && NonZero(img[r1][b.cmax]);
        assert b.cmax < Width(img);
        forall r, c | 0 <= r < |img| && 0 <= c < |img[r]| && NonZero(img[r][c])
          ensures Inside(b, r, c)
        {
          assert RowOccupied(img, r);
          assert ColOccupied(img, c);
          FirstLast(rows, r);
          FirstLast(cols, c);
        }
      }
      Some(b)
  }

  /** The occupied row and column lists are empty exactly for an all-zero image. */
  lemma OccupiedListsEmpty(img: Image)
    requires Rectangular(img)
    ensures (|OccupiedRowsFrom(img, 0)| == 0 || |OccupiedColsFrom(img, 0)| == 0) <==> AllZero(img)
  {
    var rows := OccupiedRowsFrom(img, 0);
    var cols := OccupiedColsFrom(img, 0);
    if !AllZero(img) {
      var r, c :| 0 <= r < |img| && 0 <= c < |img[r]| && NonZero(img[r][c]);
      assert RowOccupied(img, r) && r in rows;
      assert ColOccupied(img, c) && c in cols;
    }
    if |rows| > 0 {
      assert RowOccupied(img, rows[0]);
    }
  }

  lemma FirstLast(s: seq<nat>, x: nat)
    requires Increasing(s) && x in s
    ensures s[0] <= x <= s[|s| - 1]
  {
  }

  /** There is only one tight box, so the box found is the minimal one. */
  lemma TightBoxUnique(img: Image, b1: Box, b2: Box)
    requires TightBox(img, b1) && TightBox(img, b2)
    ensures b1 == b2
  {
    var c1 :| 0 <= c1 < |img[b1.rmin]| && NonZero(img[b1.rmin][c1]);
    var c2 :| 0 <= c2 < |img[b1.rmax]| && NonZero(img[b1.rmax][c2]);
    var r1 :| 0 <= r1 < |img| && b1.cmin < |img[r1]| && NonZero(img[r1][b1.cmin]);
    var r2 :| 0 <= r2 < |img| && b1.cmax < |img[r2]| && NonZero(img[r2][b1.cmax]);
    assert Inside(b2, b1.rmin, c1) && Inside(b2, b1.rmax, c2);
    assert Inside(b2, r1, b1.cmin) && Inside(b2, r2, b1.cmax);
    var d1 :| 0 <= d1 < |img[b2.rmin]| && NonZero(img[b2.rmin][d1]);
    var d2 :| 0 <= d2 < |img[b2.rmax]| && NonZero(img[b2.rmax][d2]);
    var s1 :| 0 <= s1 < |img| && b2.cmin < |img[s1]| && NonZero(img[s1][b2.cmin]);
    var s2 :| 0 <= s2 < |img| && b2.cmax < |img[s2]| && NonZero(img[s2][b2.cmax]);
    assert Inside(b1, b2.rmin, d1) && Inside(b1, b2.rmax, d2);
    assert Inside(b1, s1, b2.cmin) && Inside(b1, s2, b2.cmax);
  }

  /** get_aabb: the slice `img[rmin:rmax+1, cmin:cmax+1]` of the tight box,
      or the IndexError raised when no pixel is non-zero. The crop keeps no
      all-zero border: its first and last rows and its first and last
      columns each hold a non-zero pixel. */
  function GetAabb(img: Image): (r: Result<Image>)
    requires Rectangular(img)
    ensures r.Failure? <==> AllZero(img)
    ensures r.Failure? ==> r.error == AllBackground
    ensures r.Success? ==>
              exists b :: TightBox(img, b) && CropOf(img, b, r.value)
    ensures r.Success? ==> NoZeroBorder(r.value)
  {
    match BoundingBox(img)
    case None => Failure(AllBackground)
    case Some(b) =>
      CropTight(img, b);
      Success(Crop(img, b.rmin, b.rmax + 1, b.cmin, b.cmax + 1))
  }

  /** `c` is non-empty and its first and last rows and first and last
      columns each hold a non-zero pixel. */
  predicate NoZeroBorder(c: Image) {
    && |c| >= 1 && Width(c) >= 1
    && RowOccupied(c, 0) && RowOccupied(c, |c| - 1)
    && ColOccupied(c, 0) && ColOccupied(c, Width(c) - 1)
  }

  /** `c` is the part of `img` inside box `b`. */
  predicate CropOf(img: Image, b: Box, c: Image) {
    && b.rmin <= b.rmax < |img| && b.cmin <= b.cmax
    && IsGrid(c, b.rmax - b.rmin + 1, b.cmax - b.cmin + 1)
    && forall i, j :: 0 <= i < |c| && 0 <= j < |c[i]| ==>
         b.cmin + j < |img[b.rmin + i]| && c[i][j] == img[b.rmin + i][b.cmin + j]
  }

  /** Cutting an image to its tight box gives a crop without all-zero border. */
  lemma CropTight(img: Image, b: Box)
    requires Rectangular(img) && TightBox(img, b)
    ensures var c := Crop(img, b.rmin, b.rmax + 1, b.cmin, b.cmax + 1);
            CropOf(img, b, c) && NoZeroBorder(c)
  {
    var c := Crop(img, b.rmin, b.rmax + 1, b.cmin, b.cmax + 1);
    assert CropOf(img, b, c);
    CropEdges(img, b, c);
  }

  /** The four edges of the tight box carry over to the crop's first and last rows and columns. */
  lemma CropEdges(img: Image, b: Box, c: Image)
    requires Rectangular(img) && TightBox(img, b) && CropOf(img, b, c)
    ensures NoZeroBorder(c)
  {
    var c1 :| 0 <= c1 < |img[b.rmin]| && NonZero(img[b.rmin][c1]);
    assert Inside(b, b.rmin, c1) && c[0][c1 - b.cmin] == img[b.rmin][c1];
    var c2 :| 0 <= c2 < |img[b.rmax]| && NonZero(img[b.rmax][c2]);
    assert Inside(b, b.rmax, c2) && c[|c| - 1][c2 - b.cmin] == img[b.rmax][c2];
    var r1 :| 0 <= r1 < |img| && b.cmin < |img[r1]| && NonZero(img[r1][b.cmin]);
    assert Inside(b, r1, b.cmin) && c[r1 - b.rmin][0] == img[r1][b.cmin];
    var r2 :| 0 <= r2 < |img| && b.cmax < |img[r2]| && NonZero(img[r2][b.cmax]);
    assert Inside(b, r2, b.cmax) && c[r2 - b.rmin][Width(c) - 1] == img[r2][b.cmax];
  }
}
