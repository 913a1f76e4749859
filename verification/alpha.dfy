/** The alpha augmenter `add_alpha`: colour image in, four-channel image out. */
module Alpha {
  import opened Grid

  /** The numpy dtype of the source image; only float64 is told apart. */
  datatype DType = Float64 | OtherDType

  /** An input image: each pixel a sequence of channel values. */
  type ColourImage = seq<seq<seq<real>>>

  /** The "fully opaque" alpha value: 1.0 for float64 images, 255 otherwise. */
  function FullAlpha(d: DType): (v: real)
    ensures v != 0.0
  {
    if d == Float64 then 1.0 else 255.0
  }

  /** Every pixel carries at least the three colour channels that `[:,:,:3]` reads. */
  predicate HasColour(img: ColourImage) {
    forall i, j :: 0 <= i < |img| && 0 <= j < |img[i]| ==> |img[i][j]| >= 3
  }

  /** The colour channels of a pixel, as a channel sequence. */
  function Colour(p: Pixel): seq<real> {
    [p.r, p.g, p.b]
  }

  /** add_alpha: copy channels 0..2 and set channel 3 to the full value. */
  function AddAlpha(img: ColourImage, d: DType): (r: Image)
    requires HasColour(img)
    ensures |r| == |img|
    ensures forall i :: 0 <= i < |img| ==> |r[i]| == |img[i]|
    ensures forall i, j :: 0 <= i < |img| && 0 <= j < |img[i]| ==>
              Colour(r[i][j]) == img[i][j][..3] && r[i][j].a == FullAlpha(d)
  {
    seq(|img|, i requires 0 <= i < |img| =>
      seq(|img[i]|, j requires 0 <= j < |img[i]| =>
        Pixel(img[i][j][0], img[i][j][1], img[i][j][2], FullAlpha(d))))
  }

  /** Drops the alpha channel again. */
  function StripAlpha(img: Image): (r: ColourImage)
    ensures |r| == |img|
    ensures forall i :: 0 <= i < |img| ==> |r[i]| == |img[i]|
  {
    seq(|img|, i requires 0 <= i < |img| =>
      seq(|img[i]|, j requires 0 <= j < |img[i]| => Colour(img[i][j])))
  }

  /** Stripping the alpha channel added by AddAlpha gives back an image of
      exactly three channels; for a three-channel input, the input itself. */
  lemma {:induction false} AddAlphaRoundTrip(img: ColourImage, d: DType)
    requires forall i, j :: 0 <= i < |img| && 0 <= j < |img[i]| ==> |img[i][j]| == 3
    ensures StripAlpha(AddAlpha(img, d)) == img
  {
    var r := StripAlpha(AddAlpha(img, d));
    forall i | 0 <= i < |img|
      ensures r[i] == img[i]
    {
      forall j | 0 <= j < |img[i]|
        ensures r[i][j] == img[i][j]
      {
        assert img[i][j][..3] == img[i][j];
      }
    }
  }
}
