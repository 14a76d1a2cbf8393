/** Centre-crop geometry of `crop_to_square`: the box that cuts the largest
    centred square out of a width x height raster. */
module Crop {

  /** A crop rectangle in the imaging library's (left, upper, right, lower)
      convention: columns left .. right-1 and rows top .. bottom-1 are kept. */
  datatype Box = Box(left: int, top: int, right: int, bottom: int)
  {
    function Width(): int { right - left }
    function Height(): int { bottom - top }
  }

  /** The smaller of two sizes, as Python's `min` on two integers. */
  function Min(a: nat, b: nat): (m: nat)
    ensures m <= a && m <= b
    ensures m == a || m == b
  {
    if b < a then b else a
  }

  /** The box `crop_to_square` hands to `image.crop`: a side of min(width, height),
      placed with floor division so that any odd pixel of margin goes to the
      right (or bottom) edge. */
  function CropBox(width: nat, height: nat): (box: Box)
    // a square whose side is the shorter dimension
    ensures box.Width() == Min(width, height) && box.Height() == Min(width, height)
    // the box lies inside the image
    ensures 0 <= box.left && box.right <= width
    ensures 0 <= box.top && box.bottom <= height
    // along the shorter dimension nothing is cut away
    ensures width <= height ==> box.left == 0 && box.right == width
    ensures height <= width ==> box.top == 0 && box.bottom == height
    // centred: the right margin equals the left one or exceeds it by one pixel
    ensures 0 <= (width - box.right) - box.left <= 1
    ensures 0 <= (height - box.bottom) - box.top <= 1
  {
    var side := Min(width, height);
    var left := (width - side) / 2;
    var top := (height - side) / 2;
    Box(left, top, left + side, top + side)
  }

  /** The box is the unique centred square: a square of the shorter side whose
      right (bottom) margin equals its left (top) one or exceeds it by one
      starts where CropBox starts. */
  lemma CropBoxUnique(width: nat, height: nat, left: int, top: int)
    requires 0 <= width - Min(width, height) - 2 * left <= 1
    requires 0 <= height - Min(width, height) - 2 * top <= 1
    ensures CropBox(width, height) == Box(left, top, left + Min(width, height), top + Min(width, height))
  {
  }

  /** An image that is already square is kept whole. */
  lemma SquareKeptWhole(side: nat)
    ensures CropBox(side, side) == Box(0, 0, side, side)
  {
  }

  /** Cropping the cropped image again keeps all of it: `crop_to_square` is idempotent. */
  lemma CropIdempotent(width: nat, height: nat)
    ensures var b := CropBox(width, height);
            CropBox(b.Width(), b.Height()) == Box(0, 0, b.Width(), b.Height())
  {
  }
}
