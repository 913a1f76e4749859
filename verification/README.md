# Collotron core in Dafny

Collotron builds collages. It splits input images into clusters. Each
cluster becomes a patch: a crop with an alpha (coverage) channel. It then
pastes random patches at random positions onto a 1000×1000 canvas until
every canvas pixel is covered.

This project models the pure grid logic of `collotron.py`:

- **Alpha augmenter** (`add_alpha`): module `Alpha`.
- **Bounding-box reducer** (`get_aabb`): module `Aabb`.
- **Per-label mask-and-crop loop** of `get_patches`: module `Patches`. The
  label map is an input.
- **Compositor** (`paste`): module `Compositor`.
- **Inner assembly loop**: module `Assembly`. This covers one step and the
  loop fed a finite sequence of random draws.

Shared types live in module `Grid`. An image is a row-major
`seq<seq<Pixel>>`, and a `Pixel` has three colour channels and an alpha
channel. The code only copies channel values or compares them with 0, so
they are exact `real`s. The script is Python 2, so `width/2` on the
non-negative patch sizes is floor division, which is Dafny's `/` on `nat`.
Two exceptions of the core are modelled as `Result` failures:

- `get_aabb` on an all-zero image raises IndexError (`AllBackground`).
- `np.amax` on a zero-size label map raises ValueError (`ZeroSizeLabelMap`).

The model requires images with at least three channels per pixel, so the
failures `add_alpha` has on narrower images are outside it (see "## Left
out"). The ValueError that the assembly loop's print can raise is not
modelled either (see `Assembly.Step` there).

`np.any(img, axis=1)` on an H×W×4 array yields an H×4 array, so
`np.where(rows)[0]` lists a row once for each of its non-zero channels, in
ascending order. The model's row list (`Aabb.OccupiedRowsFrom`) holds each
row with a non-zero channel exactly once; it has the same first and last
entries, which are all `get_aabb` reads. Columns work the same way.

Three behaviours of the code are worth stating plainly:

- A 1×1 patch pasted at (0, 0) on a blank 2×2 canvas writes nothing
  (`Compositor.ThinPatchWritesNothing`).
- The paste position takes its row from one uncovered pixel and its column
  from another, drawn independently, so it can be a covered pixel
  (`Assembly.Step`, `Assembly.StepPositionMayBeCovered`).
- A label below the maximum that has no pixels makes `get_aabb` raise, and
  with it the whole extraction (`Patches.GetPatches`).

## Model

| member | source | states |
|---|---|---|
| Alpha.FullAlpha | collotron.py:30 | the alpha written for "opaque" is never 0 (1.0 for float64 images, 255 otherwise) |
| Alpha.AddAlpha | collotron.py:27-31 | the result keeps height and width; channels 0–2 of each pixel are the input's first three channels; alpha is the full value everywhere |
| Alpha.AddAlphaRoundTrip | collotron.py:27-31 | dropping the added alpha channel gives back any three-channel input unchanged |
| Grid.Crop | collotron.py:39 | the slice `img[r0:r1, c0:c1]` has `r1 - r0` rows of `c1 - c0` pixels, pixel `(i, j)` being `img[r0 + i][c0 + j]` |
| Aabb.OccupiedRowsFrom | collotron.py:35-37 | lists each row that contains a non-zero pixel exactly once, in strictly ascending order, so its first and last entries are those of `np.where(rows)[0]` |
| Aabb.OccupiedColsFrom | collotron.py:36-38 | lists each column that contains a non-zero pixel exactly once, in strictly ascending order, so its first and last entries are those of `np.where(cols)[0]` |
| Aabb.OccupiedListsEmpty | collotron.py:37-38 | the `[0, -1]` indexing has nothing to index exactly when every pixel is all-zero |
| Aabb.BoundingBox | collotron.py:35-38 | there is no box iff the image is all-zero; otherwise `rmin..rmax` × `cmin..cmax` lies in the image, holds every non-zero pixel, and each of its four edges touches a non-zero pixel |
| Aabb.TightBoxUnique | collotron.py:35-38 | two boxes with those properties are equal, so the box found is the minimal one |
| Aabb.GetAabb | collotron.py:34-39 | get_aabb fails (IndexError) iff the image is all-zero; otherwise it returns the image cut to a tight box, and the crop is non-empty with a non-zero pixel in its first and last rows and in its first and last columns |
| Aabb.CropTight | collotron.py:39 | the slice `img[rmin:rmax+1, cmin:cmax+1]` of a tight box holds exactly the box's pixels and has no all-zero border row or column |
| Aabb.CropEdges | collotron.py:37-39 | any crop of the image to its tight box has a non-zero pixel on each of its four borders |
| Patches.MaxLabel | collotron.py:54 | `np.amax` of a non-empty label map is a label that occurs and bounds every label |
| Patches.Masked | collotron.py:52-56 | in the masked copy for label i, label-i pixels keep their colour with full alpha, all others are all-zero, so a pixel is non-zero exactly when its label is i |
| Patches.LabelPatch | collotron.py:55-57 | the loop body for label `i` raises only get_aabb's IndexError, and a patch it returns has a non-zero pixel in its first and last rows and columns |
| Patches.LabelPatchExists | collotron.py:55-57 | the crop for label i succeeds exactly when label i occurs in the map |
| Patches.LabelPatchIsLabelBox | collotron.py:55-57 | for a label that occurs, the crop succeeds and is the masked copy cut to the tight box of that label's pixel set |
| Patches.Collect | collotron.py:54-58 | the append loop succeeds iff every crop succeeds, then yields the crops in order; otherwise it yields the error of a crop that raised |
| Patches.LabelPatches | collotron.py:54-57 | the crops of labels `0..n-1` in order; crop l succeeds iff label l occurs |
| Patches.GetPatches | collotron.py:52-59 | a zero-size label map fails; otherwise extraction succeeds iff every label below the maximum occurs, and then yields exactly `max(label)` patches, patch m being the crop of label m |
| Patches.PresentFrom | collotron.py:54 | the labels of `k..n-1` that occur, each listed once, in ascending order |
| Patches.PresentLabels | collotron.py:54 | every distinct label of the map, each listed once, in ascending order |
| Patches.PresentFromDense | collotron.py:54 | when every label of `k..n-1` occurs, all `n - k` of them are listed |
| Patches.DenseLabelCount | collotron.py:54 | when every label below `max(label)` occurs, the map has `max(label) + 1` distinct labels |
| Patches.GetPatchesDropsMaxLabel | collotron.py:54 | whenever get_patches succeeds, the maximum label occurs but has no patch: there is one patch fewer than there are distinct labels |
| Patches.GetPatchesEveryLabel | collotron.py:54-58 | corrected extraction: a zero-size map fails; a successful run yields one patch per distinct label, patch m being the crop of the m-th label in ascending order |
| Patches.PatchesOf | collotron.py:55-57 | the crops of a given list of labels, in list order |
| Patches.PatchesOfSucceed | collotron.py:55-58 | when every listed label occurs, no crop raises and collecting them succeeds |
| Patches.GetPatchesEveryLabelSucceeds | collotron.py:54-58 | the corrected extraction succeeds on every label map that is not zero-size |
| Compositor.Clip | collotron.py:77-84 | the clipped range is the part of `[p - n/2, p + n/2)` inside the canvas; the source index `x - xmin + difftoxmin` equals `x - (p - n/2)` and lies in `[0, 2*(n/2)) ⊆ [0, n)` |
| Compositor.Paste | collotron.py:74-91 | the shape is kept; pixels outside the window and pixels with alpha ≠ 0 are unchanged (first writer wins); a window pixel with alpha 0 receives `patch[x-(p0-rows/2)][y-(p1-cols/2)]`; covered pixels stay covered |
| Compositor.CoverageGrows | collotron.py:85-88 | after a paste the covered set contains the old one, so the covered count never drops |
| Compositor.ThinPatchWritesNothing | collotron.py:77-80 | a patch one row high or one column wide leaves the canvas unchanged |
| Compositor.OddPatchLosesLastRow | collotron.py:77-78 | for a patch of odd height, the canvas row under the patch's last row is never written |
| Compositor.PasteCentred | collotron.py:74-91 | corrected paste: every patch pixel landing on an uncovered canvas pixel is copied there; covered pixels and pixels outside the full-extent window are unchanged |
| Compositor.CentredPasteProgress | collotron.py:85-88 | with the corrected window, an uncovered centre under a patch covered at its centre becomes covered, and the covered count strictly grows |
| Assembly.Blank | collotron.py:127 | a fresh canvas has the requested shape and no covered pixel |
| Assembly.UncoveredInRow | collotron.py:132 | the uncovered pixels of one row, from a given column on |
| Assembly.UncoveredFrom | collotron.py:132 | the uncovered pixels of the rows from a given row on |
| Assembly.Uncovered | collotron.py:132 | the `np.where(alpha == 0)` pairs are exactly the uncovered pixels |
| Assembly.GuardIffUncovered | collotron.py:128 | the inner loop stops exactly when no pixel has alpha 0, that is when the uncovered list is empty |
| Assembly.Step | collotron.py:128-137 | the position takes its row from uncovered pixel `i` and its column from uncovered pixel `j` of the list, drawn independently; its row and its column each hold an uncovered pixel, it lies on the canvas, the canvas is then pasted with patch `k`, and coverage only grows |
| Assembly.StepPositionMayBeCovered | collotron.py:132-134 | for any two uncovered pixels (a, b) and (c, d), some draws give the position (a, d), whatever its coverage |
| Assembly.DiagonalCanvasExample | collotron.py:132-134 | on a 2×2 canvas with only its diagonal uncovered, the uncovered list is [(0,0), (1,1)], and the position (0,1) it can produce is covered |
| Assembly.StepAtUncovered | collotron.py:128-137 | corrected step: the position is the uncovered pixel `i` of the list and the canvas is pasted there with the full-extent window; coverage only grows, and a patch covered at its centre covers at least one more pixel |
| Assembly.Fill | collotron.py:128-137 | the inner loop stops as soon as the canvas is complete or the draws run out, does nothing on a complete canvas, uses the first draw on an incomplete one, keeps the shape, and never uncovers a pixel |
| Assembly.Collage | collotron.py:126-137 | one pass of the outer loop starts from a blank 1000×1000 canvas, so it uses at least one draw when given any, keeps that shape, and ends complete unless the draws run out |

## Left out

- `segmentation.slic` (collotron.py:44-51) is a library's iterative floating-point clustering. Its label map is an input of `Patches.GetPatches`, and labels are natural numbers.
- `resize` (collotron.py:62-71) uses a float ratio and `transform.resize`. Its comment says 1000, but the code uses 1500.
- File discovery, `imread_collection`, `imsave`, `imshow`, `show` and the writing of console output are I/O. The argument of the print at collotron.py:135-136 also calls `patches.index(patch)`; what that can raise is covered by the `Assembly.Step` line below.
- The outer `while 1` loop (collotron.py:126) never ends. `Assembly.Collage` models one pass of it, and `Assembly.Fill` one run of the inner loop, over a finite sequence of draws. Saving and showing the finished collage is I/O. Termination is not modelled, and a pool of one-row patches never makes progress.
- `random.choice` is modelled by index parameters. `Step` takes indices constrained by `requires`. `Fill` takes arbitrary naturals reduced modulo the length of the list drawn from. Every index stays reachable, but the distribution is not modelled.
- An empty patch pool makes `random.choice` raise IndexError. `Assembly.Step`, `Assembly.Fill` and `Assembly.Collage` require a non-empty pool instead of modelling that error.
- Building the pool by concatenating each image's patches (collotron.py:117) is not modelled.
- `difftoxmax` and `difftoymax` (collotron.py:82, 84) are computed but only used in commented-out code, so they are not modelled.
- Alpha.AddAlpha: requires at least three channels per pixel. On narrower input `img[:,:,:3]` behaves differently, and none of these cases is modelled: a 2-D grayscale array raises IndexError, an H×W×2 image raises ValueError (the broadcast fails), and an H×W×1 image has its one channel copied into all three colour channels.
- Channel values are exact reals. Floating-point rounding and NaN (for which `== 0` is false) are not modelled. The float64 and 8-bit cases differ only in `Alpha.FullAlpha`.
- Assembly.Step: always pastes. Before the paste, the print at collotron.py:135-136 evaluates `patches.index(patch)`. That call compares `patch` with `==` against each earlier pool entry that is a different object. When such an entry's shape broadcasts against the patch's shape, numpy returns an array of booleans whose truth test raises ValueError. This happens, for example, when both patches have the same shape. The run then ends before `paste`. This ValueError is not modelled, and neither is the resulting dependence on the pool's shapes and order. `Assembly.Fill` and `Assembly.Collage` step through `Assembly.Step`, so they leave it out too.
- Assembly.Fill: its contract states completion, the step bound and coverage growth. It does not state the exact canvas after several steps; each step's exact effect is stated by `Assembly.Step`.
- Assembly.Collage: states the same facts as `Assembly.Fill` for a blank canvas, not the exact finished collage.
- The corrected members (`GetPatchesEveryLabel`, `PasteCentred`, `StepAtUncovered`) stand beside the as-written ones. `Fill` keeps modelling the program as written.

## Findings

| source | as written | input that shows it | evidently intended | confidence | as-written member | corrected member |
|---|---|---|---|---|---|---|
| collotron.py:54 | `range(np.amax(segmented))` stops before the maximum label | label map `[[0, 1]]`: label 1 occurs, but only label 0 gets a patch | one patch per distinct label | high; not executed | Patches.GetPatchesDropsMaxLabel | Patches.GetPatchesEveryLabel |
| collotron.py:77-80 | the window `[p - n/2, p + n/2)` spans `2*(n/2)` rows, one short for odd `n` | a 1×1 patch at (0, 0) on a blank 2×2 canvas writes nothing | the whole patch, `n` rows by `m` columns, is offered to the canvas | high; not executed | Compositor.ThinPatchWritesNothing | Compositor.PasteCentred |
| collotron.py:133-134 | the row and the column come from two independent draws | 2×2 canvas with alpha `[[0, 1], [1, 0]]`: the row of (0, 0) and the column of (1, 1) give the covered position (0, 1) | centre the patch on a pixel that is still uncovered (the comment at collotron.py:124) | medium; not executed | Assembly.StepPositionMayBeCovered | Assembly.StepAtUncovered |
