/**
 * `ImageUtils.generate_thumbnail` (ImageUtils.py): open, read EXIF, convert
 * to RGB, correct the orientation, then shrink so that the longer side is
 * `base_size` and the aspect ratio is kept.
 */
module ImageUtils {
  import opened Wrappers
  import opened Raster
  import opened ImageLoader

  const DefaultBaseSize: nat := 75

  /**
   * The target size for an image of `width` by `height`. None when the height
   * is 0 (the aspect ratio divides by it). The shorter side is the exact
   * quotient rounded down, as `int()` rounds the non-negative ratio.
   */
  function ThumbnailSize(width: nat, height: nat, base: nat): (r: Option<(nat, nat)>)
    ensures r.Some? <==> height > 0
  {
    if height == 0 then None
    else if width > height then Some((base, Scale(base, height, width)))
    else Some((Scale(base, width, height), base))
  }

  /** `a * b / d` rounded down, for a positive `d`. */
  function Scale(a: nat, b: nat, d: nat): (q: nat)
    requires d > 0
    ensures q * d <= a * b < (q + 1) * d
  {
    MulMonotone(0, a, b);
    DivBounds(a * b, d);
    a * b / d
  }

  /**
   * The longer side becomes `base`; the shorter side is the largest whole
   * number of pixels that does not exceed `base` times the aspect ratio, so
   * it is off by less than one pixel and never exceeds `base`.
   */
  lemma ThumbnailSizeKeepsAspect(width: nat, height: nat, base: nat)
    requires height > 0
    ensures var (w, h) := ThumbnailSize(width, height, base).value;
      && (width > height ==> w == base && h * width <= base * height < (h + 1) * width)
      && (width <= height ==> h == base && w * height <= base * width < (w + 1) * height)
      && w <= base && h <= base
      && (w == base || h == base)
  {
    var (w, h) := ThumbnailSize(width, height, base).value;
    if width > height {
      assert base * height <= base * width by { MulMonotone(height, width, base); }
      MulCancel(h, base, width);
    } else {
      assert w * height <= base * width <= base * height by { MulMonotone(width, height, base); }
      MulCancel(w, base, height);
    }
  }

  lemma DivBounds(a: nat, b: nat)
    requires b > 0
    ensures (a / b) * b <= a < (a / b + 1) * b
  {
  }

  lemma MulMonotone(a: nat, b: nat, c: nat)
    requires a <= b
    ensures a * c <= b * c
    ensures a < b && c > 0 ==> a * c < b * c
  {
  }

  lemma MulCancel(a: nat, b: nat, c: nat)
    requires c > 0 && a * c <= b * c
    ensures a <= b
  {
    if a > b {
      MulMonotone(b, a, c);
    }
  }

  /** Swapping width and height swaps the thumbnail size. */
  lemma ThumbnailSizeTransposes(width: nat, height: nat, base: nat)
    requires width > 0 && height > 0
    ensures var (w, h) := ThumbnailSize(width, height, base).value;
      ThumbnailSize(height, width, base) == Some((h, w))
  {
    if width == height {
      ScaleCancel(base, width);
    }
  }

  lemma ScaleCancel(a: nat, b: nat)
    requires b > 0
    ensures Scale(a, b, b) == a
  {
    var q := Scale(a, b, b);
    if q < a {
      MulMonotone(q + 1, a, b);
    } else if q > a {
      MulMonotone(a + 1, q, b);
    }
  }

  /** The shorter side collapses to 0 exactly when the aspect ratio exceeds `base`. */
  lemma ThumbnailSizeCollapses(width: nat, height: nat, base: nat)
    requires height > 0
    ensures var (w, h) := ThumbnailSize(width, height, base).value;
      (w == 0 || h == 0) <==>
        (if width > height then base * height < width else base * width < height)
  {
    if width > height {
      ScaleZero(base, height, width);
    } else {
      ScaleZero(base, width, height);
    }
  }

  /** The scaled side is 0 exactly when the product is below the divisor; a zero factor makes it 0. */
  lemma ScaleZero(a: nat, b: nat, d: nat)
    requires d > 0
    ensures Scale(a, b, d) == 0 <==> a * b < d
    ensures a == 0 ==> a * b < d
  {
    var q := Scale(a, b, d);
    if q >= 1 {
      MulMonotone(1, q, d);
    }
  }

  /** A thumbnail: its size and the oriented RGB image that PIL resamples to it. */
  datatype Thumbnail<Q> = Thumbnail(width: nat, height: nat, resizedFrom: Image<Q>)

  /**
   * `generate_thumbnail`. None when the file cannot be opened, when the image
   * type has no `_getexif` (read outside the `try`), when the oriented height
   * is 0, or when a computed side is 0 (PIL's resize refuses it).
   */
  function GenerateThumbnail<P, Q>(source: Option<ImageFile<P>>, toRgb: P -> Q, base: nat): (r: Option<Thumbnail<Q>>)
    requires source.Some? ==> source.value.image.Valid()
    ensures r.Some? ==> r.value.resizedFrom.Valid() && 0 < r.value.width && 0 < r.value.height
  {
    if source.None? || source.value.exif.NoExifMethod? then None
    else
      var file := source.value;
      var converted := ImageFile(MapPixels(file.image, toRgb), file.exif);
      var oriented := CorrectImageOrientation(converted).image;
      var size := ThumbnailSize(oriented.width, oriented.height, base);
      if size.None? || size.value.0 == 0 || size.value.1 == 0 then None
      else Some(Thumbnail(size.value.0, size.value.1, oriented))
  }

  /**
   * The thumbnail is a resize of exactly the image `load_image` gives for the
   * same file, and its size is the thumbnail size of that image.
   */
  lemma ThumbnailOfLoadedImage<P, Q>(file: ImageFile<P>, toRgb: P -> Q, base: nat)
    requires file.image.Valid()
    ensures var t := GenerateThumbnail(Some(file), toRgb, base);
      var loaded := LoadImage(Some(file), toRgb).value;
      t.Some? ==> t.value.resizedFrom == loaded
                  && ThumbnailSize(loaded.width, loaded.height, base) == Some((t.value.width, t.value.height))
  {
    LoadImageConvertFirst(file, toRgb);
  }

  /**
   * When the thumbnail is produced: the file opens, its type can report EXIF,
   * and the oriented image has a height and sides that do not collapse.
   * Orientation values 5 to 8 swap the sides the size is computed from.
   */
  lemma GenerateThumbnailSucceeds<P, Q>(file: ImageFile<P>, toRgb: P -> Q, base: nat)
    requires file.image.Valid()
    ensures var v := OrientationValue(file.exif);
      var swapped := v.Some? && 5 <= v.value <= 8;
      var (w, h) := if swapped then (file.image.height, file.image.width) else (file.image.width, file.image.height);
      GenerateThumbnail(Some(file), toRgb, base).Some? <==>
        && !file.exif.NoExifMethod?
        && h > 0
        && !(if w > h then base * h < w else base * w < h)
  {
    var v := OrientationValue(file.exif);
    var swapped := v.Some? && 5 <= v.value <= 8;
    var (w, h) := if swapped then (file.image.height, file.image.width) else (file.image.width, file.image.height);
    if h > 0 {
      ThumbnailSizeCollapses(w, h, base);
    }
  }
}
