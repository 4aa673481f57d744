/** Integer geometry of the editor: the centred crop box, the canvas that
    center_image pastes a new image onto, and the guard of resize_image. */
module Geometry {
  import opened Model

  /** A PIL box: left, upper, right, lower. */
  datatype Box = Box(left: int, top: int, right: int, bottom: int)

  /** PIL's `Image.crop` raises ValueError for a box whose right edge lies
      left of its left edge or whose lower edge lies above its upper edge;
      any other box, even one reaching outside the image, is accepted. */
  predicate Refused(b: Box) {
    b.right < b.left || b.bottom < b.top
  }

  /** The box crop_frames cuts from a w x h frame for a requested cw x ch;
      PIL refuses it exactly when a requested size is negative, whatever
      the frame. */
  function CropBox(w: nat, h: nat, cw: int, ch: int): (b: Box)
    ensures b.right - b.left == cw && b.bottom - b.top == ch
    ensures Refused(b) <==> cw < 0 || ch < 0
  {
    var left := FloorDiv(w - cw, 2);
    var top := FloorDiv(h - ch, 2);
    Box(left, top, left + cw, top + ch)
  }

  /** A crop no larger than the frame lies inside it, and the margins it
      leaves on the two sides differ by at most one pixel (the odd pixel
      goes to the right and bottom). */
  lemma CropBoxCentred(w: nat, h: nat, cw: int, ch: int)
    requires 0 <= cw <= w && 0 <= ch <= h
    ensures var b := CropBox(w, h, cw, ch);
      0 <= b.left && b.right <= w && 0 <= b.top && b.bottom <= h &&
      0 <= (w - b.right) - b.left <= 1 && 0 <= (h - b.bottom) - b.top <= 1
  {
  }

  /** A crop larger than the frame reaches past it on both sides. */
  lemma CropBoxOversized(w: nat, h: nat, cw: int, ch: int)
    requires cw > w
    ensures var b := CropBox(w, h, cw, ch); b.left < 0 && b.right >= w
  {
  }

  /** The largest width in a non-empty list. */
  function MaxWidth(imgs: seq<Img>): (m: nat)
    requires |imgs| > 0
    ensures forall i :: 0 <= i < |imgs| ==> imgs[i].width <= m
    ensures exists i :: 0 <= i < |imgs| && imgs[i].width == m
  {
    if |imgs| == 1 then imgs[0].width
    else
      var m := MaxWidth(imgs[..|imgs| - 1]);
      assert forall i :: 0 <= i < |imgs| - 1 ==> imgs[..|imgs| - 1][i] == imgs[i];
      if imgs[|imgs| - 1].width > m then imgs[|imgs| - 1].width else m
  }

  /** The largest height in a non-empty list. */
  function MaxHeight(imgs: seq<Img>): (m: nat)
    requires |imgs| > 0
    ensures forall i :: 0 <= i < |imgs| ==> imgs[i].height <= m
    ensures exists i :: 0 <= i < |imgs| && imgs[i].height == m
  {
    if |imgs| == 1 then imgs[0].height
    else
      var m := MaxHeight(imgs[..|imgs| - 1]);
      assert forall i :: 0 <= i < |imgs| - 1 ==> imgs[..|imgs| - 1][i] == imgs[i];
      if imgs[|imgs| - 1].height > m then imgs[|imgs| - 1].height else m
  }

  /** center_image: a transparent canvas as wide and as high as the largest
      frame, the new image included, with the image pasted at its centre. */
  function CenterImage(frames: seq<Img>, img: Img): Img {
    var all := frames + [img];
    var w, h := MaxWidth(all), MaxHeight(all);
    assert all[|all| - 1] == img;
    Img(w, h, Centered(img, FloorDiv(w - img.width, 2), FloorDiv(h - img.height, 2)))
  }

  /** The canvas covers every existing frame and the new image, is no larger
      than needed, and holds the image inside it, centred to within a pixel. */
  lemma CenterImageFits(frames: seq<Img>, img: Img)
    ensures var c := CenterImage(frames, img);
      c.pixels.Centered? && c.pixels.inner == img &&
      img.width <= c.width && img.height <= c.height &&
      (forall i :: 0 <= i < |frames| ==> frames[i].width <= c.width && frames[i].height <= c.height) &&
      (c.width == img.width || exists i :: 0 <= i < |frames| && frames[i].width == c.width) &&
      (c.height == img.height || exists i :: 0 <= i < |frames| && frames[i].height == c.height) &&
      c.pixels.left + img.width <= c.width && c.pixels.top + img.height <= c.height &&
      0 <= (c.width - c.pixels.left - img.width) - c.pixels.left <= 1 &&
      0 <= (c.height - c.pixels.top - img.height) - c.pixels.top <= 1
  {
    var all := frames + [img];
    assert forall i :: 0 <= i < |frames| ==> all[i] == frames[i];
    assert all[|all| - 1] == img;
    var c := CenterImage(frames, img);
    var i :| 0 <= i < |all| && all[i].width == c.width;
    if i < |frames| { assert frames[i].width == c.width; }
    var j :| 0 <= j < |all| && all[j].height == c.height;
    if j < |frames| { assert frames[j].height == c.height; }
  }

  /** `image.resize((w, h), LANCZOS)`: the image resampled to exactly the
      requested size. */
  function Resample(img: Img, w: nat, h: nat): Img {
    Img(w, h, Resampled(img))
  }

  /** The display bounds resize_image scales new frames down to. */
  const DisplayWidth: nat := 800
  const DisplayHeight: nat := 600

  /** The size resize_image scales an oversized w x h image to: both sides
      multiplied by min(800 / w, 600 / h) and truncated by int(). The side
      whose bound gives the smaller factor lands on that bound exactly. */
  function ScaledSize(w: nat, h: nat): (nat, nat)
    requires w > 0 && h > 0
  {
    if DisplayWidth * h <= DisplayHeight * w then (DisplayWidth, Truncated(DisplayWidth * h, w))
    else (Truncated(DisplayHeight * w, h), DisplayHeight)
  }

  /** int() of a / b for a >= 0 and b > 0. */
  function Truncated(a: nat, b: nat): (q: nat)
    requires b > 0
    ensures q * b <= a < q * b + b
  {
    a / b
  }

  /** resize_image: an image that fits the display bounds is kept as it is;
      a larger one is resampled (LANCZOS) to ScaledSize. A zero width or
      height then divides by zero, and a scaled side truncated to zero makes
      PIL's resize raise; both are None here. */
  function ResizeImage(img: Img): Option<Img> {
    if img.width <= DisplayWidth && img.height <= DisplayHeight then Some(img)
    else if img.width == 0 || img.height == 0 then None
    else
      var size := ScaledSize(img.width, img.height);
      if size.0 == 0 || size.1 == 0 then None
      else Some(Resample(img, size.0, size.1))
  }

  lemma CancelRight(a: int, b: int, c: int)
    requires c > 0 && a * c <= b * c
    ensures a <= b
  {
  }

  lemma MulMono(a: int, b: int, c: nat)
    requires a <= b
    ensures a * c <= b * c
  {
  }

  /** The width bound gives the smaller factor: the width becomes 800 and
      the truncated height stays within both bounds. */
  lemma WidthLimited(w: nat, h: nat)
    requires w > 0 && h > 0 && (w > DisplayWidth || h > DisplayHeight)
    requires DisplayWidth * h <= DisplayHeight * w
    ensures w > DisplayWidth
    ensures Truncated(DisplayWidth * h, w) <= DisplayHeight && Truncated(DisplayWidth * h, w) <= h
    ensures Truncated(DisplayWidth * h, w) == 0 <==> DisplayWidth * h < w
    ensures DisplayHeight * w >= h
  {
    var q := Truncated(DisplayWidth * h, w);
    if q > 0 { MulMono(1, q, w); }
    CancelRight(q, DisplayHeight, w);
    MulMono(DisplayWidth, w, h);
    CancelRight(q, h, w);
  }

  /** The height bound gives the smaller factor: the height becomes 600 and
      the truncated width stays within both bounds. */
  lemma HeightLimited(w: nat, h: nat)
    requires w > 0 && h > 0 && (w > DisplayWidth || h > DisplayHeight)
    requires DisplayWidth * h > DisplayHeight * w
    ensures h > DisplayHeight
    ensures Truncated(DisplayHeight * w, h) <= DisplayWidth && Truncated(DisplayHeight * w, h) <= w
    ensures Truncated(DisplayHeight * w, h) == 0 <==> DisplayHeight * w < h
    ensures DisplayWidth * h >= w
  {
    var q := Truncated(DisplayHeight * w, h);
    if q > 0 { MulMono(1, q, h); }
    CancelRight(q, DisplayWidth, h);
    MulMono(DisplayHeight, h, w);
    CancelRight(q, w, h);
  }

  /** What resize_image promises: the result fits 800 x 600 and is never
      larger than the image; an oversized image is resampled so that one
      side reaches its bound and the other keeps the aspect ratio, rounded
      down by less than one pixel. It fails exactly for an oversized image
      with a zero side or one so thin that its short side scales below one
      pixel, and otherwise the resampled image has no zero side. */
  lemma ResizeImageFits(img: Img)
    ensures img.width <= DisplayWidth && img.height <= DisplayHeight ==> ResizeImage(img) == Some(img)
    ensures ResizeImage(img).None? <==>
      (img.width > DisplayWidth || img.height > DisplayHeight) &&
      (img.width == 0 || img.height == 0 || DisplayWidth * img.height < img.width || DisplayHeight * img.width < img.height)
    ensures (img.width > DisplayWidth || img.height > DisplayHeight) && ResizeImage(img).Some? ==>
      ResizeImage(img).value.width > 0 && ResizeImage(img).value.height > 0
    ensures ResizeImage(img).Some? ==>
      var r := ResizeImage(img).value;
      r.width <= DisplayWidth && r.height <= DisplayHeight && r.width <= img.width && r.height <= img.height
    ensures (img.width > DisplayWidth || img.height > DisplayHeight) && ResizeImage(img).Some? ==>
      var r := ResizeImage(img).value;
      r.pixels == Resampled(img) &&
      ((r.width == DisplayWidth && r.height * img.width <= DisplayWidth * img.height < (r.height + 1) * img.width) ||
       (r.height == DisplayHeight && r.width * img.height <= DisplayHeight * img.width < (r.width + 1) * img.height))
  {
    var w, h := img.width, img.height;
    if (w > DisplayWidth || h > DisplayHeight) && w > 0 && h > 0 {
      if DisplayWidth * h <= DisplayHeight * w {
        WidthLimited(w, h);
      } else {
        HeightLimited(w, h);
      }
    }
  }
}
