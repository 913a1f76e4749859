/** The patch extractor: the per-label mask-and-crop loop of `get_patches`.
    The label map is an input here; the clustering that produces it is not
    part of this model. */
module Patches {
  import opened Grid
  import opened Alpha
  import opened Aabb

  /** One cluster label per pixel. */
  type LabelMap = seq<seq<nat>>

  /** The label map is rectangular and has the image's height and width. */
  predicate SameShape(img: ColourImage, labels: LabelMap) {
    Rectangular(labels) && |img| == |labels| &&
    forall r :: 0 <= r < |img| ==> |img[r]| == |labels[r]|
  }

  predicate LabelPresent(labels: LabelMap, l: nat) {
    exists r, c :: 0 <= r < |labels| && 0 <= c < |labels[r]| && labels[r][c] == l
  }

  /** Largest element of a non-empty sequence. */
  function MaxOf(s: seq<nat>): (m: nat)
    requires |s| > 0
    ensures m in s
    ensures forall x :: x in s ==> x <= m
  {
    if |s| == 1 then s[0]
    else
      var t := MaxOf(s[1..]);
      assert forall x :: x in s ==> x == s[0] || x in s[1..];
      if s[0] < t then t else s[0]
  }

  /** `np.amax(segmented)`: a label that occurs and that no label exceeds. */
  function MaxLabel(labels: LabelMap): (m: nat)
    requires Rectangular(labels) && |labels| > 0 && Width(labels) > 0
    ensures LabelPresent(labels, m)
    ensures forall r, c :: 0 <= r < |labels| && 0 <= c < |labels[r]| ==> labels[r][c] <= m
  {
    var rowMax := seq(|labels|, r requires 0 <= r < |labels| => MaxOf(labels[r]));
    var m := MaxOf(rowMax);
    assert forall r :: 0 <= r < |labels| ==> rowMax[r] in rowMax;
    var r :| 0 <= r < |rowMax| && rowMax[r] == m;
    var c :| 0 <= c < |labels[r]| && labels[r][c] == m;
    assert forall r, c :: 0 <= r < |labels| && 0 <= c < |labels[r]| ==>
             labels[r][c] in labels[r] && labels[r][c] <= rowMax[r];
    m
  }

  /** `tmp = add_alpha(img); tmp[segmented != i] = 0`: label-`i` pixels keep
      their colour and are fully opaque, all other pixels become all-zero,
      so a pixel of the masked copy is non-zero exactly when its label is `i`. */
  function Masked(img: ColourImage, d: DType, labels: LabelMap, i: nat): (m: Image)
    requires HasColour(img) && SameShape(img, labels)
    ensures Rectangular(m) && |m| == |img| && Width(m) == Width(labels)
    ensures forall r :: 0 <= r < |m| ==> |m[r]| == |img[r]|
    ensures forall r, c {:trigger m[r][c]} :: 0 <= r < |m| && 0 <= c < |m[r]| && labels[r][c] == i ==>
              Colour(m[r][c]) == img[r][c][..3] && m[r][c].a == FullAlpha(d)
    ensures forall r, c {:trigger m[r][c]} :: 0 <= r < |m| && 0 <= c < |m[r]| && labels[r][c] != i ==>
              m[r][c] == Zero
    ensures forall r, c {:trigger m[r][c]} :: 0 <= r < |m| && 0 <= c < |m[r]| ==>
              (NonZero(m[r][c]) <==> labels[r][c] == i)
  {
    var full := AddAlpha(img, d);
    seq(|full|, r requires 0 <= r < |full| =>
      seq(|full[r]|, c requires 0 <= c < |full[r]| =>
        if labels[r][c] == i then full[r][c] else Zero))
  }

  /** The patch the loop body produces for label `i`: it can only fail with
      get_aabb's IndexError, and a patch it returns has no all-zero border. */
  function LabelPatch(img: ColourImage, d: DType, labels: LabelMap, i: nat): (r: Result<Image>)
    requires HasColour(img) && SameShape(img, labels)
    ensures r.Failure? ==> r.error == AllBackground
    ensures r.Success? ==> NoZeroBorder(r.value)
  {
    GetAabb(Masked(img, d, labels, i))
  }

  /** `b` is the tight box of the pixels labelled `i`. */
  predicate LabelBox(labels: LabelMap, i: nat, b: Box) {
    && b.rmin <= b.rmax < |labels| && b.cmin <= b.cmax < Width(labels)
    && (exists c :: 0 <= c < |labels[b.rmin]| && labels[b.rmin][c] == i)
    && (exists c :: 0 <= c < |labels[b.rmax]| && labels[b.rmax][c] == i)
    && (exists r :: 0 <= r < |labels| && b.cmin < |labels[r]| && labels[r][b.cmin] == i)
    && (exists r :: 0 <= r < |labels| && b.cmax < |labels[r]| && labels[r][b.cmax] == i)
    && forall r, c :: 0 <= r < |labels| && 0 <= c < |labels[r]| && labels[r][c] == i ==>
         Inside(b, r, c)
  }

  /** The crop for label `i` exists exactly when `i` occurs. */
  lemma LabelPatchExists(img: ColourImage, d: DType, labels: LabelMap, i: nat)
    requires HasColour(img) && SameShape(img, labels)
    ensures LabelPatch(img, d, labels, i).Success? <==> LabelPresent(labels, i)
  {
    var m := Masked(img, d, labels, i);
    if LabelPresent(labels, i) {
      var r, c :| 0 <= r < |labels| && 0 <= c < |labels[r]| && labels[r][c] == i;
      assert NonZero(m[r][c]);
    } else {
      assert AllZero(m);
    }
  }

  /** The crop for an occurring label `i` exists and is the masked copy cut
      to the tight box of label `i`'s pixel set. */
  lemma LabelPatchIsLabelBox(img: ColourImage, d: DType, labels: LabelMap, i: nat)
    requires HasColour(img) && SameShape(img, labels)
    requires LabelPresent(labels, i)
    ensures LabelPatch(img, d, labels, i).Success?
    ensures exists b :: LabelBox(labels, i, b) &&
              CropOf(Masked(img, d, labels, i), b, LabelPatch(img, d, labels, i).value)
  {
    LabelPatchExists(img, d, labels, i);
    var m := Masked(img, d, labels, i);
    var p := LabelPatch(img, d, labels, i).value;
    var b :| TightBox(m, b) && CropOf(m, b, p);
    TightBoxIsLabelBox(img, d, labels, i, b);
  }

  /** A tight box of the masked copy is the tight box of the label's pixels. */
  lemma TightBoxIsLabelBox(img: ColourImage, d: DType, labels: LabelMap, i: nat, b: Box)
    requires HasColour(img) && SameShape(img, labels)
    requires TightBox(Masked(img, d, labels, i), b)
    ensures LabelBox(labels, i, b)
  {
    var m := Masked(img, d, labels, i);
    var c1 :| 0 <= c1 < |m[b.rmin]| && NonZero(m[b.rmin][c1]);
    var c2 :| 0 <= c2 < |m[b.rmax]| && NonZero(m[b.rmax][c2]);
    var r1 :| 0 <= r1 < |m| && b.cmin < |m[r1]| && NonZero(m[r1][b.cmin]);
    var r2 :| 0 <= r2 < |m| && b.cmax < |m[r2]| && NonZero(m[r2][b.cmax]);
    assert labels[b.rmin][c1] == i && labels[b.rmax][c2] == i;
    assert labels[r1][b.cmin] == i && labels[r2][b.cmax] == i;
    forall r, c | 0 <= r < |labels| && 0 <= c < |labels[r]| && labels[r][c] == i
      ensures Inside(b, r, c)
    {
      assert NonZero(m[r][c]);
    }
  }

  /** The loop's accumulation: append each crop in order; the first crop
      that raised ends the loop with its error. */
  function Collect<T>(rs: seq<Result<T>>): (r: Result<seq<T>>)
    ensures r.Success? <==> forall m :: 0 <= m < |rs| ==> rs[m].Success?
    ensures r.Failure? ==> exists m :: 0 <= m < |rs| && rs[m] == Failure(r.error)
    ensures r.Success? ==> |r.value| == |rs|
    ensures r.Success? ==> forall m :: 0 <= m < |rs| ==> rs[m] == Success(r.value[m])
  {
    if |rs| == 0 then Success([])
    else if rs[0].Failure? then Failure(rs[0].error)
    else
      var tail := Collect(rs[1..]);
      assert forall m :: 0 < m < |rs| ==> rs[m] == rs[1..][m - 1];
      if tail.Failure? then tail
      else Success([rs[0].value] + tail.value)
  }

  /** The crops of labels `0 .. n-1`, in label order. */
  function LabelPatches(img: ColourImage, d: DType, labels: LabelMap, n: nat): (rs: seq<Result<Image>>)
    requires HasColour(img) && SameShape(img, labels)
    ensures |rs| == n
    ensures forall l :: 0 <= l < n ==> rs[l] == LabelPatch(img, d, labels, l)
    ensures forall l :: 0 <= l < n ==> (rs[l].Success? <==> LabelPresent(labels, l))
    ensures forall l :: 0 <= l < n ==> rs[l].Failure? ==> rs[l].error == AllBackground
  {
    forall l | 0 <= l < n
      ensures LabelPatch(img, d, labels, l).Success? <==> LabelPresent(labels, l)
    {
      LabelPatchExists(img, d, labels, l);
    }
    seq(n, l requires 0 <= l < n => LabelPatch(img, d, labels, l))
  }

  /** get_patches after segmentation: labels `0 .. max-1` are cropped in
      order, so exactly `max(labels)` patches come out, patch `m` being the
      crop of label `m`. np.amax raises on a zero-size label map, get_aabb
      raises for a label below the maximum that does not occur. */
  function GetPatches(img: ColourImage, d: DType, labels: LabelMap): (r: Result<seq<Image>>)
    requires HasColour(img) && SameShape(img, labels)
    ensures (|labels| == 0 || Width(labels) == 0) ==> r == Failure(ZeroSizeLabelMap)
    ensures |labels| > 0 && Width(labels) > 0 ==>
              (r.Success? <==> forall l :: 0 <= l < MaxLabel(labels) ==> LabelPresent(labels, l))
    ensures |labels| > 0 && Width(labels) > 0 && r.Success? ==> |r.value| == MaxLabel(labels)
    ensures r.Success? ==>
              forall m :: 0 <= m < |r.value| ==> LabelPatch(img, d, labels, m) == Success(r.value[m])
  {
    if |labels| == 0 || Width(labels) == 0 then Failure(ZeroSizeLabelMap)
    else Collect(LabelPatches(img, d, labels, MaxLabel(labels)))
  }

  /** The labels in `k .. n-1` that occur, in ascending order. */
  function PresentFrom(labels: LabelMap, k: nat, n: nat): (ls: seq<nat>)
    ensures forall m :: 0 <= m < |ls| ==> k <= ls[m] < n
    ensures Increasing(ls)
    ensures forall l :: l in ls <==> k <= l < n && LabelPresent(labels, l)
    decreases n - k
  {
    if k >= n then []
    else
      var rest := PresentFrom(labels, k + 1, n);
      if LabelPresent(labels, k) then [k] + rest else rest
  }

  /** Every distinct label of the map, in ascending order. */
  function PresentLabels(labels: LabelMap): (ls: seq<nat>)
    requires Rectangular(labels) && |labels| > 0 && Width(labels) > 0
    ensures Increasing(ls)
    ensures forall l :: l in ls <==> LabelPresent(labels, l)
  {
    PresentFrom(labels, 0, MaxLabel(labels) + 1)
  }

  /** When every label of `k .. n-1` occurs, all of them are listed. */
  lemma {:induction false} PresentFromDense(labels: LabelMap, k: nat, n: nat)
    requires k <= n
    requires forall l :: k <= l < n ==> LabelPresent(labels, l)
    ensures |PresentFrom(labels, k, n)| == n - k
    decreases n - k
  {
    if k < n {
      assert LabelPresent(labels, k);
      PresentFromDense(labels, k + 1, n);
      assert PresentFrom(labels, k, n) == [k] + PresentFrom(labels, k + 1, n);
    }
  }

  /** When every label below the maximum occurs, the map has exactly
      `max + 1` distinct labels. */
  lemma DenseLabelCount(labels: LabelMap)
    requires Rectangular(labels) && |labels| > 0 && Width(labels) > 0
    requires forall l :: 0 <= l < MaxLabel(labels) ==> LabelPresent(labels, l)
    ensures |PresentLabels(labels)| == MaxLabel(labels) + 1
  {
    var n := MaxLabel(labels);
    assert forall l :: 0 <= l < n + 1 ==> LabelPresent(labels, l) by {
      forall l | 0 <= l < n + 1
        ensures LabelPresent(labels, l)
      {
        if l < n {
          assert LabelPresent(labels, l);
        }
      }
    }
    PresentFromDense(labels, 0, n + 1);
  }

  /** As written, get_patches loses one cluster whenever it succeeds: the
      maximum label occurs, yet patches exist only for the labels below it,
      one fewer than the distinct labels of the map. */
  lemma GetPatchesDropsMaxLabel(img: ColourImage, d: DType, labels: LabelMap)
    requires HasColour(img) && SameShape(img, labels)
    requires GetPatches(img, d, labels).Success?
    ensures |labels| > 0 && Width(labels) > 0
    ensures LabelPresent(labels, MaxLabel(labels))
    ensures |GetPatches(img, d, labels).value| == MaxLabel(labels)
    ensures |PresentLabels(labels)| == |GetPatches(img, d, labels).value| + 1
  {
    DenseLabelCount(labels);
  }

  /** Patch extraction over the labels that actually occur: every distinct
      label yields exactly one patch, in ascending label order, and no label
      is dropped; a zero-size label map fails as before. */
  function GetPatchesEveryLabel(img: ColourImage, d: DType, labels: LabelMap): (r: Result<seq<Image>>)
    requires HasColour(img) && SameShape(img, labels)
    ensures (|labels| == 0 || Width(labels) == 0) ==> r == Failure(ZeroSizeLabelMap)
    ensures r.Success? ==> |r.value| == |PresentLabels(labels)|
    ensures r.Success? ==>
              forall m :: 0 <= m < |r.value| ==>
                LabelPatch(img, d, labels, PresentLabels(labels)[m]) == Success(r.value[m])
  {
    if |labels| == 0 || Width(labels) == 0 then Failure(ZeroSizeLabelMap)
    else Collect(PatchesOf(img, d, labels, PresentLabels(labels)))
  }

  /** The crops of the labels in `ls`, in order. */
  function PatchesOf(img: ColourImage, d: DType, labels: LabelMap, ls: seq<nat>): (rs: seq<Result<Image>>)
    requires HasColour(img) && SameShape(img, labels)
    ensures |rs| == |ls|
    ensures forall m :: 0 <= m < |ls| ==> rs[m] == LabelPatch(img, d, labels, ls[m])
  {
    seq(|ls|, m requires 0 <= m < |ls| => LabelPatch(img, d, labels, ls[m]))
  }

  /** Crops of labels that all occur never raise, so collecting them succeeds. */
  lemma PatchesOfSucceed(img: ColourImage, d: DType, labels: LabelMap, ls: seq<nat>)
    requires HasColour(img) && SameShape(img, labels)
    requires forall l :: l in ls ==> LabelPresent(labels, l)
    ensures Collect(PatchesOf(img, d, labels, ls)).Success?
  {
    var rs := PatchesOf(img, d, labels, ls);
    forall m | 0 <= m < |ls|
      ensures rs[m].Success?
    {
      var l := ls[m];
      assert l in ls;
      LabelPatchExists(img, d, labels, l);
    }
  }

  /** The corrected extraction fails only on a zero-size label map. */
  lemma GetPatchesEveryLabelSucceeds(img: ColourImage, d: DType, labels: LabelMap)
    requires HasColour(img) && SameShape(img, labels)
    requires |labels| > 0 && Width(labels) > 0
    ensures GetPatchesEveryLabel(img, d, labels).Success?
  {
    PatchesOfSucceed(img, d, labels, PresentLabels(labels));
  }
}
