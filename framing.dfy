/**
 * The geometry of `add_frame_and_mat` (MockupGenerator.py): orientation, the
 * tolerance test, the centre crop and the two border expansions.  Pixels, fill
 * colours and PIL itself are not modelled; an image is its size.
 */
module Framing {
  import opened Base
  import Crop

  const FRAME_THICKNESS: nat := 50
  const MAT_THICKNESS: nat := 80

  /** A target aspect ratio `p:q` (width to height). */
  datatype Aspect = Aspect(p: nat, q: nat)

  /** 3:2 for a landscape image (`iw > ih`), 2:3 otherwise, so a square image gets 2:3. */
  function TargetAspect(photo: Size): (a: Aspect)
    ensures photo.width > photo.height <==> a == Aspect(3, 2)
    ensures photo.width <= photo.height <==> a == Aspect(2, 3)
  {
    if photo.width > photo.height then Aspect(3, 2) else Aspect(2, 3)
  }

  /**
   * `abs(iw/ih - target) > 0.01`, exactly: the aspect differs from `p/q` by more
   * than one hundredth, `|iw*q - p*ih| / (ih*q) > 1/100`.
   */
  predicate NeedsCrop(photo: Size, a: Aspect)
    requires photo.height > 0 && a.q > 0
  {
    var diff := photo.width * a.q - a.p * photo.height;
    100 * (if diff < 0 then -diff else diff) > a.q * photo.height
  }

  /** The photo after the centre-crop step: unchanged within tolerance, else cropped by `Crop.CentreCrop`. */
  function Cropped(photo: Size): (c: Size)
    requires photo.height > 0
    ensures var a := TargetAspect(photo);
      !NeedsCrop(photo, a) ==> c == photo
    ensures var a := TargetAspect(photo);
      NeedsCrop(photo, a) && photo.width * a.q > a.p * photo.height ==>
        && c.height == photo.height && c.width <= photo.width
        && (c.width - 1) * a.q <= a.p * photo.height < (c.width + 1) * a.q
    ensures var a := TargetAspect(photo);
      NeedsCrop(photo, a) && photo.width * a.q <= a.p * photo.height ==>
        && c.width == photo.width && c.height <= photo.height
        && (c.height - 1) * a.p <= photo.width * a.q < (c.height + 1) * a.p
  {
    var a := TargetAspect(photo);
    if NeedsCrop(photo, a) then
      var b := Crop.CentreCrop(photo.width, photo.height, a.p, a.q);
      Size(b.Width(), b.Height())
    else photo
  }

  /**
   * `add_frame_and_mat(image_path)` given the opened photo's size or `None` when it
   * cannot be opened: `None` also for a zero-height photo (`iw / ih` raises and the
   * handler returns `None`); otherwise the cropped size grown by the mat and the
   * frame on every side.
   */
  function FrameAndMat(photo: Option<Size>): (r: Option<Size>)
    ensures r.None? <==> photo.None? || photo.value.height == 0
    ensures r.Some? ==>
      var c := Cropped(photo.value);
      && r.value.width == c.width + 2 * (MAT_THICKNESS + FRAME_THICKNESS)
      && r.value.height == c.height + 2 * (MAT_THICKNESS + FRAME_THICKNESS)
  {
    match photo
    case None => None
    case Some(s) =>
      if s.height == 0 then None
      else
        var c := Cropped(s);
        var matted := Size(c.width + 2 * MAT_THICKNESS, c.height + 2 * MAT_THICKNESS);
        Some(Size(matted.width + 2 * FRAME_THICKNESS, matted.height + 2 * FRAME_THICKNESS))
  }

  /**
   * The framed size is the cropped size plus 260 on each axis; a photo already
   * within tolerance of its target keeps its own size and only gains the borders.
   */
  lemma FramedGrowth(photo: Size)
    requires photo.height > 0
    ensures FrameAndMat(Some(photo)) == Some(Size(Cropped(photo).width + 260, Cropped(photo).height + 260))
    ensures !NeedsCrop(photo, TargetAspect(photo)) ==>
      FrameAndMat(Some(photo)) == Some(Size(photo.width + 260, photo.height + 260))
  {
  }
}
