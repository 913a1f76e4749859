/** The assembly loop: while some canvas pixel is uncovered, draw a patch and
    a position and paste. Random draws are inputs (indices into the lists the
    program draws from). */
module Assembly {
  import opened Grid
  import opened Compositor

  /** Height and width of the collage canvas. */
  const CanvasSize: nat := 1000

  /** `np.zeros((h, w, 4))`: a canvas with no covered pixel. */
  function Blank(h: nat, w: nat): (c: Image)
    ensures IsGrid(c, h, w)
    ensures CoveredSet(c) == {}
  {
    seq(h, x requires 0 <= x < h => seq(w, y requires 0 <= y < w => Zero))
  }

  /** The loop guard `np.any(collage[:,:,3] == 0)` is false. */
  predicate Complete(canvas: Image) {
    forall x, y :: 0 <= x < |canvas| && 0 <= y < |canvas[x]| ==> Covered(canvas[x][y])
  }

  predicate Uncovers(canvas: Image, p: (int, int)) {
    0 <= p.0 < |canvas| && 0 <= p.1 < |canvas[p.0]| && !Covered(canvas[p.0][p.1])
  }

  /** Uncovered pixels of row `x` from column `y` on, left to right. */
  function UncoveredInRow(canvas: Image, x: nat, y: nat): (u: seq<(int, int)>)
    requires x < |canvas|
    ensures forall p :: p in u <==> p.0 == x && y <= p.1 && Uncovers(canvas, p)
    decreases |canvas[x]| - y
  {
    if y >= |canvas[x]| then []
    else
      var rest := UncoveredInRow(canvas, x, y + 1);
      if !Covered(canvas[x][y]) then [(x, y)] + rest else rest
  }

  /** Uncovered pixels of rows `x..`, in row-major order. */
  function UncoveredFrom(canvas: Image, x: nat): (u: seq<(int, int)>)
    ensures forall p :: p in u <==> x <= p.0 && Uncovers(canvas, p)
    decreases |canvas| - x
  {
    if x >= |canvas| then []
    else UncoveredInRow(canvas, x, 0) + UncoveredFrom(canvas, x + 1)
  }

  /** `np.where(collage[:,:,3] == 0)` read as (row, column) pairs: entry `n`
      of the first array and of the second array belong to the same pixel. */
  function Uncovered(canvas: Image): (u: seq<(int, int)>)
    ensures forall p :: p in u <==> Uncovers(canvas, p)
  {
    UncoveredFrom(canvas, 0)
  }

  /** The inner loop runs exactly while the list of uncovered pixels is non-empty. */
  lemma GuardIffUncovered(canvas: Image)
    ensures Complete(canvas) <==> |Uncovered(canvas)| == 0
  {
    var u := Uncovered(canvas);
    if |u| > 0 {
      assert u[0] in u;
    }
    if !Complete(canvas) {
      var x, y :| 0 <= x < |canvas| && 0 <= y < |canvas[x]| && !Covered(canvas[x][y]);
      assert (x, y) in u;
    }
  }

  /** One iteration of the inner loop: `patch = pool[k]`; the row is that of
      uncovered pixel `i`, the column that of uncovered pixel `j`, drawn
      independently; then paste. */
  method Step(canvas: Image, pool: seq<Image>, k: nat, i: nat, j: nat) returns (pos: (int, int), r: Image)
    requires Rectangular(canvas) && forall q :: 0 <= q < |pool| ==> Rectangular(pool[q])
    requires k < |pool| && i < |Uncovered(canvas)| && j < |Uncovered(canvas)|
    ensures pos == (Uncovered(canvas)[i].0, Uncovered(canvas)[j].1)
    ensures 0 <= pos.0 < |canvas| && 0 <= pos.1 < Width(canvas)
    ensures exists y :: 0 <= y < Width(canvas) && !Covered(canvas[pos.0][y])
    ensures exists x :: 0 <= x < |canvas| && !Covered(canvas[x][pos.1])
    ensures PastedFrom(canvas, pool[k], pos, r)
    ensures CoveredSet(canvas) <= CoveredSet(r)
  {
    var u := Uncovered(canvas);
    assert u[i] in u && u[j] in u;
    pos := (u[i].0, u[j].1);
    assert |canvas[u[j].0]| == Width(canvas);
    r := Paste(canvas, pool[k], pos);
  }

  /** The position a step pastes at need not be uncovered: whenever pixels
      `(a, b)` and `(c, d)` are uncovered, some pair of draws yields the
      position `(a, d)`, whatever its coverage. */
  lemma StepPositionMayBeCovered(canvas: Image, a: int, b: int, c: int, d: int)
    requires Uncovers(canvas, (a, b)) && Uncovers(canvas, (c, d))
    ensures exists i, j :: 0 <= i < |Uncovered(canvas)| && 0 <= j < |Uncovered(canvas)| &&
              (Uncovered(canvas)[i].0, Uncovered(canvas)[j].1) == (a, d)
  {
    var u := Uncovered(canvas);
    assert (a, b) in u && (c, d) in u;
    var i :| 0 <= i < |u| && u[i] == (a, b);
    var j :| 0 <= j < |u| && u[j] == (c, d);
    assert (u[i].0, u[j].1) == (a, d);
  }

  /** A 2x2 canvas with its diagonal uncovered: drawing the row of (0, 0)
      and the column of (1, 1) pastes at the covered pixel (0, 1). */
  lemma DiagonalCanvasExample()
    ensures var full := Pixel(0.0, 0.0, 0.0, 1.0);
            var canvas := [[Zero, full], [full, Zero]];
            Uncovered(canvas) == [(0, 0), (1, 1)] && Covered(canvas[0][1])
  {
    var full := Pixel(0.0, 0.0, 0.0, 1.0);
    var canvas := [[Zero, full], [full, Zero]];
    assert UncoveredInRow(canvas, 0, 1) == [];
    assert UncoveredInRow(canvas, 0, 0) == [(0, 0)];
    assert UncoveredInRow(canvas, 1, 1) == [(1, 1)];
    assert UncoveredInRow(canvas, 1, 0) == [(1, 1)];
    assert UncoveredFrom(canvas, 1) == [(1, 1)];
  }

  /** A step that centres the patch on one uncovered pixel (row and column
      drawn together) and pastes with the full-extent window: the position
      is uncovered, and if the patch is covered at its centre the step
      covers at least one more pixel. */
  method StepAtUncovered(canvas: Image, pool: seq<Image>, k: nat, i: nat) returns (pos: (int, int), r: Image)
    requires Rectangular(canvas) && forall q :: 0 <= q < |pool| ==> Rectangular(pool[q])
    requires k < |pool| && i < |Uncovered(canvas)|
    ensures pos == Uncovered(canvas)[i] && Uncovers(canvas, pos)
    ensures r == PasteCentred(canvas, pool[k], pos)
    ensures CoveredSet(canvas) <= CoveredSet(r)
    ensures CentreCovered(pool[k]) ==> |CoveredSet(canvas)| < |CoveredSet(r)|
  {
    var u := Uncovered(canvas);
    assert u[i] in u;
    pos := u[i];
    var patch := pool[k];
    r := PasteCentred(canvas, patch, pos);
    forall p | p in CoveredSet(canvas)
      ensures p in CoveredSet(r)
    {
      assert r[p.0][p.1] == canvas[p.0][p.1];
    }
    if CentreCovered(patch) {
      CentredPasteProgress(canvas, patch, pos);
    }
  }

  /** One draw of the random source: a patch index and the indices of the
      row and column entries of the uncovered-pixel list, taken modulo the
      list lengths. */
  datatype Draw = Draw(patch: nat, row: nat, col: nat)

  /** The inner `while` loop, fed a finite sequence of draws: it stops as
      soon as the canvas is complete or the draws run out. Coverage never
      shrinks along the way. */
  method Fill(canvas: Image, pool: seq<Image>, draws: seq<Draw>) returns (r: Image, steps: nat)
    requires Rectangular(canvas) && |pool| > 0 && forall q :: 0 <= q < |pool| ==> Rectangular(pool[q])
    ensures IsGrid(r, |canvas|, Width(canvas))
    ensures steps <= |draws|
    ensures steps < |draws| ==> Complete(r)
    ensures Complete(canvas) ==> steps == 0 && r == canvas
    ensures |draws| > 0 && !Complete(canvas) ==> steps > 0
    ensures CoveredSet(canvas) <= CoveredSet(r)
  {
    r := canvas;
    steps := 0;
    while steps < |draws| && !Complete(r)
      invariant steps <= |draws|
      invariant IsGrid(r, |canvas|, Width(canvas))
      invariant CoveredSet(canvas) <= CoveredSet(r)
      invariant Complete(canvas) ==> steps == 0 && r == canvas
      invariant steps == 0 ==> r == canvas
    {
      GuardIffUncovered(r);
      var u := Uncovered(r);
      var d := draws[steps];
      var pos, next := Step(r, pool, d.patch % |pool|, d.row % |u|, d.col % |u|);
      r := next;
      steps := steps + 1;
    }
  }

  /** One pass of the outer loop: start from a blank `CanvasSize` x
      `CanvasSize` canvas and run the inner loop on it. */
  method Collage(pool: seq<Image>, draws: seq<Draw>) returns (r: Image, steps: nat)
    requires |pool| > 0 && forall q :: 0 <= q < |pool| ==> Rectangular(pool[q])
    ensures IsGrid(r, CanvasSize, CanvasSize)
    ensures steps <= |draws|
    ensures steps < |draws| ==> Complete(r)
    ensures |draws| > 0 ==> steps > 0
  {
    var blank := Blank(CanvasSize, CanvasSize);
    assert !Complete(blank) by {
      assert !Covered(blank[0][0]);
    }
    r, steps := Fill(blank, pool, draws);
  }
}
