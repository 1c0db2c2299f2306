/** Preview sizing shared by both frames: the image is scaled by one factor
    so that its shorter side targets 300 pixels, and each side is truncated
    to a whole number of pixels, at least 1. */
module Preview {
  import opened Store

  const TargetSide: nat := 300

  function Min(a: nat, b: nat): nat {
    if a <= b then a else b
  }

  /** Integer division facts the sizing proofs rely on. */
  lemma DivBounds(a: nat, m: nat, k: nat)
    requires m > 0 && a >= k * m
    ensures (a / m) * m <= a < (a / m + 1) * m
    ensures a / m >= k
  {
    var q := a / m;
    assert a == q * m + a % m;
  }

  /** The preview size of a `w` x `h` image: each side times 300 / min(w, h),
      truncated and clamped to at least 1. */
  function PreviewSize(w: nat, h: nat): (size: (nat, nat))
    requires w > 0 && h > 0
    ensures size.0 >= 1 && size.1 >= 1
  {
    var m := Min(w, h);
    (Max1(w * TargetSide / m), Max1(h * TargetSide / m))
  }

  /** Each side of the preview is the floor of its exact scaled length
      `side * 300 / min(w, h)`, which is at least 300. */
  lemma PreviewSizeFloor(w: nat, h: nat)
    requires w > 0 && h > 0
    ensures var size := PreviewSize(w, h);
      var m := Min(w, h);
      && size.0 * m <= w * TargetSide < (size.0 + 1) * m
      && size.1 * m <= h * TargetSide < (size.1 + 1) * m
      && size.0 >= TargetSide && size.1 >= TargetSide
  {
    var m := Min(w, h);
    DivBounds(w * TargetSide, m, TargetSide);
    DivBounds(h * TargetSide, m, TargetSide);
  }

  function Max1(n: int): nat {
    if n < 1 then 1 else n
  }

  /** Scaling by one factor keeps the orientation: the shorter side of the
      image is the shorter side of the preview, and a square stays square. */
  lemma PreviewKeepsOrientation(w: nat, h: nat)
    requires w > 0 && h > 0
    ensures w <= h ==> PreviewSize(w, h).0 <= PreviewSize(w, h).1
    ensures h <= w ==> PreviewSize(w, h).1 <= PreviewSize(w, h).0
  {
    var size := PreviewSize(w, h);
    PreviewSizeFloor(w, h);
    if w <= h {
      assert Min(w, h) == w;
      assert size.0 * w < (size.1 + 1) * w;
      ProductCancel(size.0, size.1 + 1, w);
    }
    if h <= w {
      assert Min(w, h) == h;
      assert size.1 * h < (size.0 + 1) * h;
      ProductCancel(size.1, size.0 + 1, h);
    }
  }

  /** The shorter side of the image previews at exactly 300 pixels. */
  lemma PreviewShortSide(w: nat, h: nat)
    requires w > 0 && h > 0
    ensures Min(PreviewSize(w, h).0, PreviewSize(w, h).1) == TargetSide
  {
    var size := PreviewSize(w, h);
    PreviewKeepsOrientation(w, h);
    PreviewSizeFloor(w, h);
    if w <= h {
      assert size.0 * w <= TargetSide * w;
      assert (TargetSide + 1) * w == TargetSide * w + w;
      ProductCancel(size.0, TargetSide + 1, w);
    } else {
      assert size.1 * h <= TargetSide * h;
      assert (TargetSide + 1) * h == TargetSide * h + h;
      ProductCancel(size.1, TargetSide + 1, h);
    }
  }

  lemma ProductCancel(a: int, b: int, m: int)
    requires m > 0 && a * m < b * m
    ensures a < b
  {
    assert (b - a) * m == b * m - a * m;
  }

  /** What an image label shows: the drawn placeholder image, the bare text
      "No image selected", or a resized image. */
  datatype Preview = Placeholder | NoImage | Scaled(width: nat, height: nat)

  /** Opening the image at `path` and resizing it: the preview size, or
      `None` when the path is empty or missing, PIL cannot decode the file,
      or a side is zero (the division by the shorter side fails). */
  function ScaledPreview(images: map<string, Picture>, path: string): Option<(nat, nat)> {
    if path != "" && path in images && images[path].Picture?
      && images[path].width > 0 && images[path].height > 0
    then Some(PreviewSize(images[path].width, images[path].height))
    else None
  }

  /** The catalogue's preview: the resized image, or the placeholder for a
      missing or unreadable image. */
  function CataloguePreview(images: map<string, Picture>, path: string): Preview {
    match ScaledPreview(images, path)
    case Some(size) => Scaled(size.0, size.1)
    case None => Placeholder
  }

  /** An image is shown exactly when the path names a file PIL decodes to
      a picture with two non-zero sides; its shorter side is then 300
      pixels and its orientation is the picture's. */
  lemma ScaledPreviewSpec(images: map<string, Picture>, path: string)
    ensures ScaledPreview(images, path).Some? <==>
      (path != "" && path in images && images[path].Picture?
       && images[path].width > 0 && images[path].height > 0)
    ensures ScaledPreview(images, path).Some? ==>
      var size := ScaledPreview(images, path).value;
      var pic := images[path];
      && Min(size.0, size.1) == TargetSide
      && (pic.width <= pic.height ==> size.0 <= size.1)
      && (pic.height <= pic.width ==> size.1 <= size.0)
  {
    if ScaledPreview(images, path).Some? {
      PreviewShortSide(images[path].width, images[path].height);
      PreviewKeepsOrientation(images[path].width, images[path].height);
    }
  }

  /** The catalogue never shows the bare "No image" text: it shows the
      resized image when it can, the placeholder otherwise. */
  lemma CataloguePreviewSpec(images: map<string, Picture>, path: string)
    ensures CataloguePreview(images, path) != NoImage
    ensures CataloguePreview(images, path).Scaled? <==> ScaledPreview(images, path).Some?
    ensures CataloguePreview(images, path).Scaled? ==>
      var size := ScaledPreview(images, path).value;
      CataloguePreview(images, path) == Scaled(size.0, size.1)
  {
  }
}
