/**
 * Centre-cropping to an aspect ratio, as `fit_crop` (BannerCollageMaker.py) and
 * `add_frame_and_mat` (MockupGenerator.py) both write it.  The Python code compares
 * float aspect ratios; here `iw/ih > p/q` is the exact `iw*q > p*ih`, and
 * `int(p/q * ih)` is the exact `p*ih / q`.
 */
module Crop {
  import opened Base
  import Arith

  /** The width branch of `CentreCrop`. */
  lemma WideCrop(iw: nat, ih: nat, p: nat, q: nat)
    requires ih > 0 && p > 0 && q > 0 && iw * q > p * ih
    ensures var offset := (iw - p * ih / q) / 2;
      && p * ih / q < iw
      && 0 <= offset <= iw - offset
      && (iw - 2 * offset - 1) * q <= p * ih < (iw - 2 * offset + 1) * q
  {
    var newWidth := p * ih / q;
    Arith.DivBelow(p * ih, q, iw);
    Arith.TrimBothEnds(iw, newWidth);
    var offset := (iw - newWidth) / 2;
    Arith.WithinOne(p * ih, q, iw - 2 * offset);
  }

  /** The height branch of `CentreCrop`. */
  lemma TallCrop(iw: nat, ih: nat, p: nat, q: nat)
    requires ih > 0 && p > 0 && q > 0 && iw * q <= p * ih
    ensures var offset := (ih - iw * q / p) / 2;
      && iw * q / p <= ih
      && 0 <= offset <= ih - offset
      && (ih - 2 * offset - 1) * p <= iw * q < (ih - 2 * offset + 1) * p
  {
    var newHeight := iw * q / p;
    assert iw * q < (ih + 1) * p;
    Arith.DivBelow(iw * q, p, ih + 1);
    Arith.TrimBothEnds(ih, newHeight);
    var offset := (ih - newHeight) / 2;
    Arith.WithinOne(iw * q, p, ih - 2 * offset);
  }

  /**
   * The box that trims the over-long side of an `iw`×`ih` image towards the
   * aspect `p:q`, by the same offset on both sides.  When the image is wider than
   * the target only the width is trimmed and the kept width is within one pixel
   * of `p*ih/q`; otherwise only the height is trimmed, likewise.
   */
  function CentreCrop(iw: nat, ih: nat, p: nat, q: nat): (b: Box)
    requires ih > 0 && p > 0 && q > 0
    ensures iw * q > p * ih ==>
      && b.top == 0 && b.bottom == ih
      && 0 <= b.left <= b.right && b.right == iw - b.left
      && (b.Width() - 1) * q <= p * ih < (b.Width() + 1) * q
    ensures iw * q <= p * ih ==>
      && b.left == 0 && b.right == iw
      && 0 <= b.top <= b.bottom && b.bottom == ih - b.top
      && (b.Height() - 1) * p <= iw * q < (b.Height() + 1) * p
  {
    if iw * q > p * ih then
      WideCrop(iw, ih, p, q);
      var offset := (iw - p * ih / q) / 2;
      Box(offset, 0, iw - offset, ih)
    else
      TallCrop(iw, ih, p, q);
      var offset := (ih - iw * q / p) / 2;
      Box(0, offset, iw, ih - offset)
  }

  /** What `fit_crop` computes: the crop box, then a resize to exactly the target size. */
  datatype Fit = Fit(box: Box, size: Size)

  /**
   * `fit_crop(img, tw, th)`: the crop chosen by `iw*th > tw*ih`, then the resize.
   * A zero-height image makes `iw / ih` raise, which is `None` here.
   */
  function FitCrop(image: Size, tw: nat, th: nat): (r: Option<Fit>)
    requires tw > 0 && th > 0
    ensures r.None? <==> image.height == 0
    ensures r.Some? ==> r.value.size == Size(tw, th)
    ensures r.Some? ==> r.value.box == CentreCrop(image.width, image.height, tw, th)
  {
    if image.height == 0 then None
    else Some(Fit(CentreCrop(image.width, image.height, tw, th), Size(tw, th)))
  }

  /**
   * The `fit_crop` box trims exactly one dimension, symmetrically, stays inside the
   * image, and keeps `new_width` or `new_width + 1` columns (`new_height` or
   * `new_height + 1` rows), where `new_width = tw*ih // th` and `new_height = iw*th // tw`.
   */
  lemma FitCropBox(image: Size, tw: nat, th: nat)
    requires tw > 0 && th > 0 && image.height > 0
    ensures var b := FitCrop(image, tw, th).value.box;
      && 0 <= b.left <= b.right <= image.width
      && 0 <= b.top <= b.bottom <= image.height
      && b.left == image.width - b.right
      && b.top == image.height - b.bottom
      && (image.width * th > tw * image.height ==>
            b.Height() == image.height
            && (b.Width() == tw * image.height / th || b.Width() == tw * image.height / th + 1))
      && (image.width * th <= tw * image.height ==>
            b.Width() == image.width
            && (b.Height() == image.width * th / tw || b.Height() == image.width * th / tw + 1))
  {
    var b := FitCrop(image, tw, th).value.box;
    var iw, ih := image.width, image.height;
    if iw * th > tw * ih {
      var n := tw * ih / th;
      Arith.DivBracket(tw * ih, th);
      assert (b.Width() - 1) * th < (n + 1) * th;
      assert n * th < (b.Width() + 1) * th;
    } else {
      var n := iw * th / tw;
      Arith.DivBracket(iw * th, tw);
      assert (b.Height() - 1) * tw < (n + 1) * tw;
      assert n * tw < (b.Height() + 1) * tw;
    }
  }
}
