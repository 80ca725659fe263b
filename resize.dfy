/**
 * Target dimensions of `image_resize`. Only the size computation is
 * modelled; the pixel resampling done by `cv2.resize` is not.
 */
module Resize {
  import opened Wrappers

  /**
   * What `image_resize` does with an image of `h` rows and `w` columns:
   * returns it as it is, asks `cv2.resize` for `width` x `height` pixels, or
   * raises `ZeroDivisionError` while computing the ratio.
   */
  datatype Resized = Unchanged | Scaled(width: nat, height: nat) | ZeroDivision

  /**
   * `width` wins whenever it is given; `height` is only used when `width` is
   * `None`. The free dimension is `int(w * (height / float(h)))` in the
   * source, taken here as the exact floor of the rational.
   */
  function TargetSize(h: nat, w: nat, width: Option<nat>, height: Option<nat>): (r: Resized)
    ensures r.Unchanged? <==> width.None? && height.None?
    ensures r.ZeroDivision? <==> (width.Some? && w == 0) || (width.None? && height.Some? && h == 0)
    ensures width.Some? && w > 0 ==>
              && r.Scaled? && r.width == width.value
              && r.height * w <= h * width.value < (r.height + 1) * w
    ensures width.None? && height.Some? && h > 0 ==>
              && r.Scaled? && r.height == height.value
              && r.width * h <= w * height.value < (r.width + 1) * h
  {
    if width.None? && height.None? then Unchanged
    else if width.None? then
      if h == 0 then ZeroDivision else Scaled(FloorDiv(w * height.value, h), height.value)
    else
      if w == 0 then ZeroDivision else Scaled(width.value, FloorDiv(h * width.value, w))
  }

  /** Exact floor division of naturals, stated by its defining bounds. */
  function FloorDiv(a: nat, b: nat): (q: nat)
    requires b > 0
    ensures q * b <= a < (q + 1) * b
  {
    if a < b then 0 else FloorDiv(a - b, b) + 1
  }

  /**
   * The pipeline asks for `width=64, height=64`; the height is ignored, so
   * the result is 64 x 64 only for crops whose height is at least their
   * width and below 65/64 of it.
   */
  lemma BoxRequestIsSquareIff(h: nat, w: nat)
    requires w > 0
    ensures TargetSize(h, w, Some(64), Some(64)) == Scaled(64, 64) <==> w <= h && 64 * h < 65 * w
  {
    var q := TargetSize(h, w, Some(64), Some(64)).height;
    assert q * w <= h * 64 < (q + 1) * w;
    if q < 64 {
      MulMono(q + 1, 64, w);
    } else if q > 64 {
      MulMono(65, q, w);
    }
  }

  /** Multiplying by a natural keeps the order. */
  lemma MulMono(a: nat, b: nat, c: nat)
    requires a <= b
    ensures a * c <= b * c
  {
  }
}
