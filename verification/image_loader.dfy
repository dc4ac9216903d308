/**
 * `ImageLoader` (ImageLoader.py): undo the camera's EXIF orientation, then
 * convert to RGB. Also the orientation table shared with thumbnail
 * generation.
 */
module ImageLoader {
  import opened Wrappers
  import opened Raster

  /** The key of "Orientation" in PIL's `ExifTags.TAGS` (tag 0x0112 of the EXIF standard). */
  const OrientationTag: int := 0x0112

  /**
   * What an opened file offers for EXIF: no `_getexif` method at all (formats
   * other than JPEG, WebP, ...), a method that returns None, or the tag table.
   */
  datatype Exif = NoExifMethod | NoExif | ExifTags(tags: map<int, int>)

  /** An opened image file: its pixels and its EXIF access. */
  datatype ImageFile<P> = ImageFile(image: Image<P>, exif: Exif)

  /** The orientation value, when there is one to read. */
  function OrientationValue(exif: Exif): (v: Option<int>)
    ensures v.Some? <==> exif.ExifTags? && OrientationTag in exif.tags
    ensures v.Some? ==> v.value == exif.tags[OrientationTag]
  {
    if exif.ExifTags? && OrientationTag in exif.tags then Some(exif.tags[OrientationTag]) else None
  }

  /** The orientation values the table acts on; 1 and every other value leave the image alone. */
  predicate Reorients(v: int) {
    2 <= v <= 8
  }

  /** The orientation table: the transform applied for each orientation value. */
  function Reorient<P>(img: Image<P>, v: int): (r: Image<P>)
    requires img.Valid()
    ensures r.Valid()
    ensures 5 <= v <= 8 ==> r.width == img.height && r.height == img.width
    ensures !(5 <= v <= 8) ==> r.width == img.width && r.height == img.height
  {
    if v == 2 then FlipLeftRight(img)
    else if v == 3 then Rotate180(img)
    else if v == 4 then FlipLeftRight(Rotate180(img))
    else if v == 5 then FlipLeftRight(RotateClockwise(img))
    else if v == 6 then RotateClockwise(img)
    else if v == 7 then FlipLeftRight(RotateCounterClockwise(img))
    else if v == 8 then RotateCounterClockwise(img)
    else img
  }

  /**
   * `correct_image_orientation`. Any failure to read a value (no method, no
   * EXIF, no Orientation tag) leaves the image as it was. A transformed image
   * is a new PIL image, which has no `_getexif`.
   */
  function CorrectImageOrientation<P>(file: ImageFile<P>): (r: ImageFile<P>)
    requires file.image.Valid()
    ensures r.image.Valid()
    ensures {r.image.width, r.image.height} == {file.image.width, file.image.height}
    ensures r == file || (r.exif == NoExifMethod && OrientationValue(r.exif).None?)
  {
    var v := OrientationValue(file.exif);
    if v.Some? && Reorients(v.value) then ImageFile(Reorient(file.image, v.value), NoExifMethod)
    else file
  }

  /**
   * `load_image`: open (None when PIL cannot open or decode the file), correct
   * the orientation, then convert every pixel with `toRgb`.
   */
  function LoadImage<P, Q>(source: Option<ImageFile<P>>, toRgb: P -> Q): (r: Option<Image<Q>>)
    requires source.Some? ==> source.value.image.Valid()
    ensures r.Some? <==> source.Some?
    ensures r.Some? ==> r.value.Valid()
  {
    match source
    case None => None
    case Some(file) => Some(MapPixels(CorrectImageOrientation(file).image, toRgb))
  }

  /**
   * Each orientation value, written as where output pixel (x, y) comes from:
   * 2 mirrors, 3 turns upside down, 4 flips top to bottom, 5 transposes,
   * 6 turns clockwise, 7 transposes across the other diagonal, 8 turns
   * counter-clockwise.
   */
  lemma ReorientPixel<P>(img: Image<P>, v: int, y: nat, x: nat)
    requires img.Valid() && Reorients(v)
    requires y < Reorient(img, v).height && x < Reorient(img, v).width
    ensures var W, H := img.width, img.height;
      Reorient(img, v).rows[y][x] ==
        if v == 2 then img.rows[y][W - 1 - x]
        else if v == 3 then img.rows[H - 1 - y][W - 1 - x]
        else if v == 4 then img.rows[H - 1 - y][x]
        else if v == 5 then img.rows[x][y]
        else if v == 6 then img.rows[H - 1 - x][y]
        else if v == 7 then img.rows[H - 1 - x][W - 1 - y]
        else img.rows[x][W - 1 - y]
  {
  }

  /** The orientation value that undoes `v`: the quarter turns 6 and 8 undo each other, the rest undo themselves. */
  function InverseOrientation(v: int): (w: int)
    ensures Reorients(w) <==> Reorients(v)
    ensures w != v ==> (v == 6 && w == 8) || (v == 8 && w == 6)
    ensures v == 6 ==> w == 8
    ensures v == 8 ==> w == 6
  {
    if v == 6 then 8 else if v == 8 then 6 else v
  }

  /** Every table entry is a bijection on pixels: applying the inverse entry gives the image back. */
  lemma ReorientUndone<P>(img: Image<P>, v: int)
    requires img.Valid() && Reorients(v)
    ensures Reorient(Reorient(img, v), InverseOrientation(v)) == img
  {
    if v == 2 {
      FlipLeftRightInvolution(img);
    } else if v == 3 {
      Rotate180Involution(img);
    } else if v == 6 || v == 8 {
      QuarterTurnsInverse(img);
    } else {
      ReorientSelfInverse(img, v);
    }
  }

  /** The position of the original that output pixel (x, y) of a table entry is taken from. */
  lemma ReorientSource<P>(img: Image<P>, v: int, y: nat, x: nat) returns (sy: nat, sx: nat)
    requires img.Valid() && Reorients(v)
    requires y < Reorient(img, v).height && x < Reorient(img, v).width
    ensures sy < img.height && sx < img.width
    ensures Reorient(img, v).rows[y][x] == img.rows[sy][sx]
  {
    ReorientPixel(img, v, y, x);
    var W, H := img.width, img.height;
    if v == 2 {
      sy, sx := y, W - 1 - x;
    } else if v == 3 {
      sy, sx := H - 1 - y, W - 1 - x;
    } else if v == 4 {
      sy, sx := H - 1 - y, x;
    } else if v == 5 {
      sy, sx := x, y;
    } else if v == 6 {
      sy, sx := H - 1 - x, y;
    } else if v == 7 {
      sy, sx := H - 1 - x, W - 1 - y;
    } else {
      sy, sx := x, W - 1 - y;
    }
  }

  /** Every pixel of a reoriented image is a pixel of the original. */
  lemma ReorientPixelsFrom<P>(img: Image<P>, v: int, p: P)
    requires img.Valid() && HasPixel(Reorient(img, v), p)
    ensures HasPixel(img, p)
  {
    if Reorients(v) {
      var r := Reorient(img, v);
      var y, x :| 0 <= y < r.height && 0 <= x < r.width && r.rows[y][x] == p;
      var sy, sx := ReorientSource(img, v, y, x);
      assert img.rows[sy][sx] == p;
    }
  }

  /**
   * Orientation only rearranges pixels: the reoriented image holds exactly
   * the pixels of the original, none invented and none lost.
   */
  lemma ReorientKeepsPixels<P>(img: Image<P>, v: int, p: P)
    requires img.Valid()
    ensures HasPixel(Reorient(img, v), p) <==> HasPixel(img, p)
  {
    if HasPixel(Reorient(img, v), p) {
      ReorientPixelsFrom(img, v, p);
    }
    if HasPixel(img, p) && Reorients(v) {
      ReorientUndone(img, v);
      ReorientPixelsFrom(Reorient(img, v), InverseOrientation(v), p);
    }
  }

  /** The flips 4, 5 and 7 undo themselves. */
  lemma ReorientSelfInverse<P>(img: Image<P>, v: int)
    requires img.Valid() && (v == 4 || v == 5 || v == 7)
    ensures Reorient(Reorient(img, v), v) == img
  {
    var back := Reorient(Reorient(img, v), v);
    forall y, x | 0 <= y < img.height && 0 <= x < img.width
      ensures back.rows[y][x] == img.rows[y][x]
    {
      SelfInversePixel(img, v, y, x);
    }
    ImageEq(back, img);
  }

  lemma SelfInversePixel<P>(img: Image<P>, v: int, y: nat, x: nat)
    requires img.Valid() && (v == 4 || v == 5 || v == 7)
    requires y < img.height && x < img.width
    ensures Reorient(Reorient(img, v), v).rows[y][x] == img.rows[y][x]
  {
    if v == 4 {
      var r := Reorient(img, 4);
      ReorientPixel(r, 4, y, x);
      ReorientPixel(img, 4, r.height - 1 - y, x);
    } else if v == 5 {
      var r := Reorient(img, 5);
      ReorientPixel(r, 5, y, x);
      ReorientPixel(img, 5, x, y);
    } else {
      var r := Reorient(img, 7);
      ReorientPixel(r, 7, y, x);
      ReorientPixel(img, 7, r.height - 1 - x, r.width - 1 - y);
    }
  }

  /** A file whose orientation is already corrected is left alone by a second correction. */
  lemma CorrectImageOrientationIdempotent<P>(file: ImageFile<P>)
    requires file.image.Valid()
    ensures CorrectImageOrientation(CorrectImageOrientation(file)) == CorrectImageOrientation(file)
  {
  }

  /**
   * Without a usable orientation value (no method, no EXIF, no tag, or a value
   * outside 2..8) the image is unchanged; with one the table entry is applied.
   */
  lemma CorrectImageOrientationDefaults<P>(file: ImageFile<P>)
    requires file.image.Valid()
    ensures var v := OrientationValue(file.exif);
      && (v.None? || !Reorients(v.value) ==> CorrectImageOrientation(file) == file)
      && (v.Some? && Reorients(v.value) ==> CorrectImageOrientation(file).image == Reorient(file.image, v.value))
  {
  }

  /** A per-pixel conversion commutes with every table entry. */
  lemma ReorientMapPixels<P, Q>(img: Image<P>, v: int, f: P -> Q)
    requires img.Valid()
    ensures Reorient(MapPixels(img, f), v) == MapPixels(Reorient(img, v), f)
  {
    MapPixelsCommutes(img, f);
    if v == 4 {
      MapPixelsCommutes(Rotate180(img), f);
    } else if v == 5 {
      MapPixelsCommutes(RotateClockwise(img), f);
    } else if v == 7 {
      MapPixelsCommutes(RotateCounterClockwise(img), f);
    }
  }

  /**
   * `load_image` corrects before it converts; converting first would give the
   * same pixels.
   */
  lemma LoadImageConvertFirst<P, Q>(file: ImageFile<P>, toRgb: P -> Q)
    requires file.image.Valid()
    ensures LoadImage(Some(file), toRgb)
         == Some(CorrectImageOrientation(ImageFile(MapPixels(file.image, toRgb), file.exif)).image)
  {
    var v := OrientationValue(file.exif);
    if v.Some? && Reorients(v.value) {
      ReorientMapPixels(file.image, v.value, toRgb);
    }
  }
}
