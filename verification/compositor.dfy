/** The compositor `paste`: centre a patch on the canvas, clip it to the
    canvas, and copy a patch pixel only onto canvas pixels whose alpha is 0. */
module Compositor {
  import opened Grid

  /** Along one axis, `paste` computes a clipped index range `lo..hi-1` and
      the number `skip` of leading patch indices that fall before the canvas. */
  datatype Span = Span(lo: int, hi: int, skip: int)

  /** First canvas index the centred patch would reach: `p - extent/2`
      (floor half-extent, as Python 2 integer division). */
  function Start(p: int, extent: nat): int {
    p - extent / 2
  }

  predicate InSpan(s: Span, x: int) {
    s.lo <= x < s.hi
  }

  /** The clipping of `paste` for one axis, with `p` the centre, `extent`
      the patch size and `bound` the canvas size along that axis. The range
      is the part of `[p - extent/2, p + extent/2)` inside `[0, bound)`, and
      the source index `x - lo + skip` is always `x - (p - extent/2)`, which
      lies in `[0, 2*(extent/2))` and therefore inside the patch. */
  function Clip(p: int, extent: nat, bound: nat): (s: Span)
    ensures 0 <= s.lo && s.hi <= bound
    ensures forall x :: 0 <= x < bound ==>
              (InSpan(s, x) <==> Start(p, extent) <= x < p + extent / 2)
    ensures 0 <= s.skip && s.lo - s.skip == Start(p, extent)
    ensures s.lo < s.hi ==> s.hi - s.lo + s.skip <= 2 * (extent / 2) <= extent
  {
    var lo := Max(p - extent / 2, 0);
    var hi := Min(p + extent / 2, bound);
    var skip := Max(0, 0 - (p - extent / 2));
    Span(lo, hi, skip)
  }

  /** Canvas pixel `(x, y)` lies in the window `paste` visits. */
  predicate InWindow(patch: Image, pos: (int, int), x: int, y: int) {
    Start(pos.0, |patch|) <= x < pos.0 + |patch| / 2 &&
    Start(pos.1, Width(patch)) <= y < pos.1 + Width(patch) / 2
  }

  /** `r` is the canvas `paste(canvas, patch, pos)` leaves: same shape;
      a window pixel whose alpha was 0 now holds the patch pixel at
      `(x - (p0 - rows/2), y - (p1 - cols/2))`; every other pixel is as before. */
  ghost predicate PastedFrom(canvas: Image, patch: Image, pos: (int, int), r: Image) {
    && Rectangular(canvas) && Rectangular(patch)
    && IsGrid(r, |canvas|, Width(canvas))
    && forall x, y :: 0 <= x < |canvas| && 0 <= y < Width(canvas) ==>
         if InWindow(patch, pos, x, y) && canvas[x][y].a == 0.0 then
           r[x][y] == patch[x - Start(pos.0, |patch|)][y - Start(pos.1, Width(patch))]
         else
           r[x][y] == canvas[x][y]
  }

  /** paste, as the nested loop over the clipped window. */
  method Paste(canvas: Image, patch: Image, pos: (int, int)) returns (r: Image)
    requires Rectangular(canvas) && Rectangular(patch)
    ensures PastedFrom(canvas, patch, pos, r)
    ensures IsGrid(r, |canvas|, Width(canvas))
    ensures forall x, y :: 0 <= x < |canvas| && 0 <= y < Width(canvas) && !InWindow(patch, pos, x, y) ==>
              r[x][y] == canvas[x][y]
    ensures forall x, y :: 0 <= x < |canvas| && 0 <= y < Width(canvas) && Covered(canvas[x][y]) ==>
              r[x][y] == canvas[x][y]
    ensures CoveredSet(canvas) <= CoveredSet(r)
  {
    var xs := Clip(pos.0, |patch|, |canvas|);
    var ys := Clip(pos.1, Width(patch), Width(canvas));
    r := canvas;
    var x := xs.lo;
    while x < xs.hi
      invariant xs.lo <= x && (x <= xs.hi || x == xs.lo)
      invariant IsGrid(r, |canvas|, Width(canvas))
      invariant forall a, b :: 0 <= a < |canvas| && 0 <= b < Width(canvas) ==>
                  if xs.lo <= a < x && ys.lo <= b < ys.hi && canvas[a][b].a == 0.0 then
                    r[a][b] == patch[a - Start(pos.0, |patch|)][b - Start(pos.1, Width(patch))]
                  else
                    r[a][b] == canvas[a][b]
    {
      var y := ys.lo;
      while y < ys.hi
        invariant ys.lo <= y && (y <= ys.hi || y == ys.lo)
        invariant IsGrid(r, |canvas|, Width(canvas))
        invariant forall a, b :: 0 <= a < |canvas| && 0 <= b < Width(canvas) ==>
                    if (xs.lo <= a < x || (a == x && b < y)) && ys.lo <= b < ys.hi && canvas[a][b].a == 0.0 then
                      r[a][b] == patch[a - Start(pos.0, |patch|)][b - Start(pos.1, Width(patch))]
                    else
                      r[a][b] == canvas[a][b]
      {
        if r[x][y].a == 0.0 {
          r := r[x := r[x][y := patch[x - xs.lo + xs.skip][y - ys.lo + ys.skip]]];
        }
        y := y + 1;
      }
      x := x + 1;
    }
    CoverageGrows(canvas, patch, pos, r);
  }

  /** Covered pixels stay covered: the covered set only grows, and so does its size. */
  lemma CoverageGrows(canvas: Image, patch: Image, pos: (int, int), r: Image)
    requires PastedFrom(canvas, patch, pos, r)
    ensures CoveredSet(canvas) <= CoveredSet(r)
    ensures |CoveredSet(canvas)| <= |CoveredSet(r)|
  {
    forall p | p in CoveredSet(canvas)
      ensures p in CoveredSet(r)
    {
      assert r[p.0][p.1] == canvas[p.0][p.1];
    }
    SubsetCard(CoveredSet(canvas), CoveredSet(r));
  }

  /** As written, a patch with a single row or a single column leaves the
      canvas unchanged: its window `[p - 0, p + 0)` is empty. */
  lemma ThinPatchWritesNothing(canvas: Image, patch: Image, pos: (int, int), r: Image)
    requires PastedFrom(canvas, patch, pos, r)
    requires |patch| == 1 || Width(patch) == 1
    ensures r == canvas
  {
    forall x | 0 <= x < |canvas|
      ensures r[x] == canvas[x]
    {
      forall y | 0 <= y < Width(canvas)
        ensures r[x][y] == canvas[x][y]
      {
        assert !InWindow(patch, pos, x, y);
      }
    }
  }

  /** As written, a patch of odd height never has its last row copied: the
      window spans `2*(rows/2) = rows - 1` rows. */
  lemma OddPatchLosesLastRow(canvas: Image, patch: Image, pos: (int, int), r: Image, y: int)
    requires PastedFrom(canvas, patch, pos, r)
    requires |patch| % 2 == 1
    requires 0 <= Start(pos.0, |patch|) + |patch| - 1 < |canvas| && 0 <= y < Width(canvas)
    ensures var x := Start(pos.0, |patch|) + |patch| - 1;
            r[x][y] == canvas[x][y]
  {
    var x := Start(pos.0, |patch|) + |patch| - 1;
    assert !InWindow(patch, pos, x, y);
  }

  /** First canvas index of the corrected window, the same floor rule as
      `Start`; the window then spans the full patch extent. */
  predicate InFullWindow(patch: Image, pos: (int, int), x: int, y: int) {
    Start(pos.0, |patch|) <= x < Start(pos.0, |patch|) + |patch| &&
    Start(pos.1, Width(patch)) <= y < Start(pos.1, Width(patch)) + Width(patch)
  }

  /** The canvas pixel the corrected paste leaves at `(x, y)`. */
  function CentredPixel(canvas: Image, patch: Image, pos: (int, int), x: int, y: int): Pixel
    requires Rectangular(canvas) && Rectangular(patch)
    requires 0 <= x < |canvas| && 0 <= y < Width(canvas)
  {
    if InFullWindow(patch, pos, x, y) && canvas[x][y].a == 0.0 then
      patch[x - Start(pos.0, |patch|)][y - Start(pos.1, Width(patch))]
    else canvas[x][y]
  }

  /** A pixel is unchanged when it was covered or lies outside the
      full-extent window. */
  predicate KeepsOutsideAndCovered(canvas: Image, patch: Image, pos: (int, int), r: Image)
    requires Rectangular(canvas) && IsGrid(r, |canvas|, Width(canvas))
  {
    forall x, y ::
      (0 <= x < |canvas| && 0 <= y < Width(canvas) &&
       (Covered(canvas[x][y]) || !InFullWindow(patch, pos, x, y))) ==>
      r[x][y] == canvas[x][y]
  }

  /** An uncovered canvas pixel under patch pixel `(i, j)` receives it. */
  predicate OffersEveryPatchPixel(canvas: Image, patch: Image, pos: (int, int), r: Image)
    requires Rectangular(canvas) && Rectangular(patch) && IsGrid(r, |canvas|, Width(canvas))
  {
    forall i, j :: 0 <= i < |patch| && 0 <= j < Width(patch) ==>
      var x := Start(pos.0, |patch|) + i;
      var y := Start(pos.1, Width(patch)) + j;
      0 <= x < |canvas| && 0 <= y < Width(canvas) && !Covered(canvas[x][y]) ==>
        r[x][y] == patch[i][j]
  }

  /** Centred paste with the lower half-extent `n/2` and the upper one
      `n - n/2`, so the window spans the whole patch: every patch pixel that
      lands on an uncovered canvas pixel is copied there, and covered
      pixels and pixels outside the window are unchanged. */
  function PasteCentred(canvas: Image, patch: Image, pos: (int, int)): (r: Image)
    requires Rectangular(canvas) && Rectangular(patch)
    ensures IsGrid(r, |canvas|, Width(canvas))
    ensures KeepsOutsideAndCovered(canvas, patch, pos, r)
    ensures OffersEveryPatchPixel(canvas, patch, pos, r)
  {
    var r := seq(|canvas|, x requires 0 <= x < |canvas| =>
      seq(Width(canvas), y requires 0 <= y < Width(canvas) => CentredPixel(canvas, patch, pos, x, y)));
    CentredPixels(canvas, patch, pos, r);
    r
  }

  lemma CentredPixels(canvas: Image, patch: Image, pos: (int, int), r: Image)
    requires Rectangular(canvas) && Rectangular(patch) && IsGrid(r, |canvas|, Width(canvas))
    requires forall x, y :: 0 <= x < |canvas| && 0 <= y < Width(canvas) ==>
               r[x][y] == CentredPixel(canvas, patch, pos, x, y)
    ensures KeepsOutsideAndCovered(canvas, patch, pos, r)
    ensures OffersEveryPatchPixel(canvas, patch, pos, r)
  {
    var top := Start(pos.0, |patch|);
    var left := Start(pos.1, Width(patch));
    forall i, j | 0 <= i < |patch| && 0 <= j < Width(patch) &&
                  0 <= top + i < |canvas| && 0 <= left + j < Width(canvas) &&
                  !Covered(canvas[top + i][left + j])
      ensures r[top + i][left + j] == patch[i][j]
    {
      assert InFullWindow(patch, pos, top + i, left + j);
    }
  }

  /** The patch is covered at its centre pixel `(rows/2, cols/2)`. */
  predicate CentreCovered(patch: Image) {
    |patch| > 0 && Width(patch) / 2 < |patch[|patch| / 2]| &&
    Covered(patch[|patch| / 2][Width(patch) / 2])
  }

  /** With the corrected window the centre pixel is always under the patch
      pixel `(rows/2, cols/2)`: if the centre was uncovered and that patch
      pixel is covered, the paste covers at least one more pixel. */
  lemma CentredPasteProgress(canvas: Image, patch: Image, pos: (int, int))
    requires Rectangular(canvas) && Rectangular(patch)
    requires 0 <= pos.0 < |canvas| && 0 <= pos.1 < Width(canvas)
    requires !Covered(canvas[pos.0][pos.1])
    requires CentreCovered(patch)
    ensures Covered(PasteCentred(canvas, patch, pos)[pos.0][pos.1])
    ensures |CoveredSet(canvas)| < |CoveredSet(PasteCentred(canvas, patch, pos))|
  {
    var r := PasteCentred(canvas, patch, pos);
    assert r[pos.0][pos.1] == patch[|patch| / 2][Width(patch) / 2];
    forall p | p in CoveredSet(canvas)
      ensures p in CoveredSet(r)
    {
      assert r[p.0][p.1] == canvas[p.0][p.1];
    }
    assert pos in CoveredSet(r);
    ProperSubsetCard(CoveredSet(canvas), CoveredSet(r), pos);
  }
}
