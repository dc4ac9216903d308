/**
 * Raster images as rows of pixels, and the lossless whole-image transforms
 * that the orientation table uses. PIL's `rotate(180)`, `rotate(-90,
 * expand=True)` and `rotate(90, expand=True)` are exact pixel permutations
 * (PIL's ROTATE_180, ROTATE_270 and ROTATE_90), so they are modelled as such.
 */
module Raster {

  /** `rows[y][x]` is the pixel in column `x` of row `y`, counted from the top left. */
  datatype Image<P> = Image(width: nat, height: nat, rows: seq<seq<P>>)
  {
    ghost predicate Valid() {
      |rows| == height && forall y :: 0 <= y < height ==> |rows[y]| == width
    }
  }

  /** Some position of `img` holds the pixel `p`. */
  ghost predicate HasPixel<P>(img: Image<P>, p: P)
    requires img.Valid()
  {
    exists y, x :: 0 <= y < img.height && 0 <= x < img.width && img.rows[y][x] == p
  }

  /** Two well-formed images with the same size and the same pixels are equal. */
  lemma ImageEq<P>(a: Image<P>, b: Image<P>)
    requires a.Valid() && b.Valid() && a.width == b.width && a.height == b.height
    requires forall y, x :: 0 <= y < a.height && 0 <= x < a.width ==> a.rows[y][x] == b.rows[y][x]
    ensures a == b
  {
    forall y | 0 <= y < a.height
      ensures a.rows[y] == b.rows[y]
    {
      assert forall x :: 0 <= x < a.width ==> a.rows[y][x] == b.rows[y][x];
    }
  }

  /** `transpose(FLIP_LEFT_RIGHT)`: mirror each row. */
  function FlipLeftRight<P>(img: Image<P>): (r: Image<P>)
    requires img.Valid()
    ensures r.Valid() && r.width == img.width && r.height == img.height
    ensures forall y, x :: 0 <= y < r.height && 0 <= x < r.width ==>
      r.rows[y][x] == img.rows[y][img.width - 1 - x]
  {
    Image(img.width, img.height,
      seq(img.height, y requires 0 <= y < img.height =>
        seq(img.width, x requires 0 <= x < img.width => img.rows[y][img.width - 1 - x])))
  }

  /** `rotate(180)`: turn the image upside down. */
  function Rotate180<P>(img: Image<P>): (r: Image<P>)
    requires img.Valid()
    ensures r.Valid() && r.width == img.width && r.height == img.height
    ensures forall y, x :: 0 <= y < r.height && 0 <= x < r.width ==>
      r.rows[y][x] == img.rows[img.height - 1 - y][img.width - 1 - x]
  {
    Image(img.width, img.height,
      seq(img.height, y requires 0 <= y < img.height =>
        seq(img.width, x requires 0 <= x < img.width => img.rows[img.height - 1 - y][img.width - 1 - x])))
  }

  /** `rotate(-90, expand=True)`: a quarter turn clockwise; width and height swap. */
  function RotateClockwise<P>(img: Image<P>): (r: Image<P>)
    requires img.Valid()
    ensures r.Valid() && r.width == img.height && r.height == img.width
    ensures forall y, x :: 0 <= y < r.height && 0 <= x < r.width ==>
      r.rows[y][x] == img.rows[img.height - 1 - x][y]
  {
    Image(img.height, img.width,
      seq(img.width, y requires 0 <= y < img.width =>
        seq(img.height, x requires 0 <= x < img.height => img.rows[img.height - 1 - x][y])))
  }

  /** `rotate(90, expand=True)`: a quarter turn counter-clockwise; width and height swap. */
  function RotateCounterClockwise<P>(img: Image<P>): (r: Image<P>)
    requires img.Valid()
    ensures r.Valid() && r.width == img.height && r.height == img.width
    ensures forall y, x :: 0 <= y < r.height && 0 <= x < r.width ==>
      r.rows[y][x] == img.rows[x][img.width - 1 - y]
  {
    Image(img.height, img.width,
      seq(img.width, y requires 0 <= y < img.width =>
        seq(img.height, x requires 0 <= x < img.height => img.rows[x][img.width - 1 - y])))
  }

  /** A per-pixel conversion such as `convert("RGB")`: same size, each pixel converted. */
  function MapPixels<P, Q>(img: Image<P>, f: P -> Q): (r: Image<Q>)
    requires img.Valid()
    ensures r.Valid() && r.width == img.width && r.height == img.height
    ensures forall y, x :: 0 <= y < r.height && 0 <= x < r.width ==> r.rows[y][x] == f(img.rows[y][x])
  {
    Image(img.width, img.height,
      seq(img.height, y requires 0 <= y < img.height =>
        seq(img.width, x requires 0 <= x < img.width => f(img.rows[y][x]))))
  }

  /** Mirroring twice gives the image back. */
  lemma FlipLeftRightInvolution<P>(img: Image<P>)
    requires img.Valid()
    ensures FlipLeftRight(FlipLeftRight(img)) == img
  {
    ImageEq(FlipLeftRight(FlipLeftRight(img)), img);
  }

  /** Turning upside down twice gives the image back. */
  lemma Rotate180Involution<P>(img: Image<P>)
    requires img.Valid()
    ensures Rotate180(Rotate180(img)) == img
  {
    ImageEq(Rotate180(Rotate180(img)), img);
  }

  /** The two quarter turns undo each other, in either order. */
  lemma QuarterTurnsInverse<P>(img: Image<P>)
    requires img.Valid()
    ensures RotateCounterClockwise(RotateClockwise(img)) == img
    ensures RotateClockwise(RotateCounterClockwise(img)) == img
  {
    ImageEq(RotateCounterClockwise(RotateClockwise(img)), img);
    ImageEq(RotateClockwise(RotateCounterClockwise(img)), img);
  }

  /** Two clockwise quarter turns make a half turn. */
  lemma TwoQuarterTurns<P>(img: Image<P>)
    requires img.Valid()
    ensures RotateClockwise(RotateClockwise(img)) == Rotate180(img)
  {
    ImageEq(RotateClockwise(RotateClockwise(img)), Rotate180(img));
  }

  /** A per-pixel conversion commutes with every transform. */
  lemma MapPixelsCommutes<P, Q>(img: Image<P>, f: P -> Q)
    requires img.Valid()
    ensures FlipLeftRight(MapPixels(img, f)) == MapPixels(FlipLeftRight(img), f)
    ensures Rotate180(MapPixels(img, f)) == MapPixels(Rotate180(img), f)
    ensures RotateClockwise(MapPixels(img, f)) == MapPixels(RotateClockwise(img), f)
    ensures RotateCounterClockwise(MapPixels(img, f)) == MapPixels(RotateCounterClockwise(img), f)
  {
    var m := MapPixels(img, f);
    ImageEq(FlipLeftRight(m), MapPixels(FlipLeftRight(img), f));
    ImageEq(Rotate180(m), MapPixels(Rotate180(img), f));
    ImageEq(RotateClockwise(m), MapPixels(RotateClockwise(img), f));
    ImageEq(RotateCounterClockwise(m), MapPixels(RotateCounterClockwise(img), f));
  }
}
