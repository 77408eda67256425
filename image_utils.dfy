/**
  The image side of the application: choosing the MIME type of an upload
  from its file name (ImageUploader.get_content_type) and the geometry of
  cutting a detected item out of a photo and letterboxing it into the
  150 x 150 thumbnail (ImageProcessor.crop and ImageProcessor.square).
  Pixels are not modelled, only sizes and offsets.
 */
module ImageUtils {
  import opened Wrappers

  // ---- MIME type of an upload ----

  const PNG_TYPE: string := "image/png"
  const JPEG_TYPE: string := "image/jpeg"
  const OCTET_STREAM_TYPE: string := "application/octet-stream"

  /** Python's `str.endswith` (case-sensitive). */
  predicate EndsWith(s: string, suffix: string)
  {
    |suffix| <= |s| && s[|s| - |suffix|..] == suffix
  }

  /** ImageUploader.get_content_type on a file named `fileName`. */
  function ContentType(fileName: string): (mime: string)
    ensures mime == PNG_TYPE || mime == JPEG_TYPE || mime == OCTET_STREAM_TYPE
  {
    if EndsWith(fileName, ".png") then PNG_TYPE
    else if EndsWith(fileName, ".jpg") || EndsWith(fileName, ".jpeg") then JPEG_TYPE
    else OCTET_STREAM_TYPE
  }

  /** The text after the last '.' of a file name; None when there is no '.'. */
  function Extension(name: string): Option<string>
  {
    if name == [] then None
    else if name[|name| - 1] == '.' then Some([])
    else match Extension(name[..|name| - 1])
      case None => None
      case Some(e) => Some(e + [name[|name| - 1]])
  }

  /** The MIME table by extension: an independent reading of the same rule. */
  function TypeOfExtension(ext: Option<string>): string
  {
    if ext == Some("png") then PNG_TYPE
    else if ext == Some("jpg") || ext == Some("jpeg") then JPEG_TYPE
    else OCTET_STREAM_TYPE
  }

  lemma {:induction false} ExtensionAfterLastDot(prefix: string, ext: string)
    requires '.' !in ext
    ensures Extension(prefix + ['.'] + ext) == Some(ext)
  {
    var name := prefix + ['.'] + ext;
    if ext != [] {
      var front := ext[..|ext| - 1];
      assert name[..|name| - 1] == prefix + ['.'] + front;
      assert name[|name| - 1] == ext[|ext| - 1];
      ExtensionAfterLastDot(prefix, front);
      assert front + [ext[|ext| - 1]] == ext;
    }
  }

  lemma {:induction false} ExtensionIsSuffix(name: string)
    requires Extension(name).Some?
    ensures var e := Extension(name).value;
      '.' !in e && |e| < |name| && name == name[..|name| - |e| - 1] + ['.'] + e
  {
    if name[|name| - 1] != '.' {
      var front := name[..|name| - 1];
      ExtensionIsSuffix(front);
      var e := Extension(front).value;
      assert name == front + [name[|name| - 1]];
      assert front == front[..|front| - |e| - 1] + ['.'] + e;
      assert front[..|front| - |e| - 1] == name[..|name| - |e + [name[|name| - 1]]| - 1];
    }
  }

  lemma SuffixGivesExtension(name: string, ext: string)
    requires '.' !in ext && EndsWith(name, ['.'] + ext)
    ensures Extension(name) == Some(ext)
  {
    var prefix := name[..|name| - |ext| - 1];
    assert name == prefix + ['.'] + ext;
    ExtensionAfterLastDot(prefix, ext);
  }

  lemma ExtensionGivesSuffix(name: string)
    requires Extension(name).Some?
    ensures EndsWith(name, ['.'] + Extension(name).value)
  {
    ExtensionIsSuffix(name);
    var e := Extension(name).value;
    assert name[|name| - |e| - 1..] == ['.'] + e;
  }

  /**
    Suffix matching agrees with looking the extension after the last dot up
    in the table: ".png" gives PNG, ".jpg" and ".jpeg" give JPEG, anything
    else (including upper-case ".PNG") the generic type.
   */
  lemma {:induction false} ContentTypeByExtension(fileName: string)
    ensures ContentType(fileName) == TypeOfExtension(Extension(fileName))
  {
    assert ".png" == ['.'] + "png" && ".jpg" == ['.'] + "jpg" && ".jpeg" == ['.'] + "jpeg";
    if EndsWith(fileName, ".png") {
      SuffixGivesExtension(fileName, "png");
    } else if EndsWith(fileName, ".jpg") {
      SuffixGivesExtension(fileName, "jpg");
    } else if EndsWith(fileName, ".jpeg") {
      SuffixGivesExtension(fileName, "jpeg");
    } else if Extension(fileName).Some? {
      ExtensionGivesSuffix(fileName);
    }
  }

  /** Matching is case-sensitive: upper-case suffixes are not recognised. */
  lemma ContentTypeIsCaseSensitive()
    ensures ContentType("photo.PNG") == OCTET_STREAM_TYPE
    ensures ContentType("photo.JPG") == OCTET_STREAM_TYPE
    ensures ContentType("photo.png") == PNG_TYPE
    ensures ContentType("photo.jpeg") == JPEG_TYPE
  {
    ContentTypeByExtension("photo.PNG");
    ContentTypeByExtension("photo.JPG");
  }

  // ---- crop and square geometry ----

  /** ImageProcessor.length: the side of every thumbnail. */
  const TARGET_LENGTH: nat := 150

  datatype Size = Size(width: nat, height: nat)

  /** A crop box (left, upper, right, lower) in pixels. */
  datatype Box = Box(xmin: int, ymin: int, xmax: int, ymax: int)

  /**
    Size of `image.crop(box)`. The image library refuses a box whose right
    edge lies left of its left edge or whose lower edge lies above its upper
    edge (ValueError); otherwise the result has the box's size, any part
    outside the source being filled in.
   */
  function CropSize(box: Box): Option<Size>
  {
    if box.xmin <= box.xmax && box.ymin <= box.ymax then Some(Size(box.xmax - box.xmin, box.ymax - box.ymin))
    else None
  }

  /** A box inside the source gives a crop no larger than the source. */
  lemma CropWithinBounds(source: Size, box: Box)
    requires 0 <= box.xmin <= box.xmax <= source.width
    requires 0 <= box.ymin <= box.ymax <= source.height
    ensures CropSize(box).Some?
    ensures CropSize(box).value.width <= source.width && CropSize(box).value.height <= source.height
    ensures CropSize(box).value.width == box.xmax - box.xmin && CropSize(box).value.height == box.ymax - box.ymin
  {
  }

  /** Where `square` puts the scaled image on its canvas. */
  datatype Layout = Layout(scaled: Size, offsetX: int, offsetY: int, canvas: Size)

  /** The side `square` scales to the target: the width when strictly wider, else the height. */
  function Longer(source: Size): nat
  {
    if source.width > source.height then source.width else source.height
  }

  /**
    Whether `square` can handle `source`: the longer side is not zero (the
    ratio divides by it), and neither side scales down to zero pixels, since
    the image library refuses to resize to an empty side. The one exception
    is a resize to the size the image already has, which the library
    answers with a copy before looking at the size: a 0 x `length` or
    `length` x 0 image passes through.
   */
  predicate SquareFits(source: Size, length: nat)
  {
    Longer(source) > 0 &&
    ((source.width * length >= Longer(source) && source.height * length >= Longer(source))
     || source == Size(0, length) || source == Size(length, 0))
  }

  /**
    The geometry of ImageProcessor.square with exact ratios: the longer side
    (the height on a tie) is scaled to `length`, the other side
    proportionally and truncated, and the result is centred on a
    `length` x `length` canvas with floor-divided offsets. None where the
    source raises: a division by zero, or a resize to a new size with a side
    of no pixels.
   */
  function SquareLayout(source: Size, length: nat): (r: Option<Layout>)
    requires length > 0
    ensures r.Some? <==> SquareFits(source, length)
    ensures r.Some? ==> r.value.canvas == Size(length, length)
    ensures r.Some? ==> r.value.scaled.width <= length && r.value.scaled.height <= length
    ensures r.Some? ==> (1 <= r.value.scaled.width && 1 <= r.value.scaled.height) || r.value.scaled == source
    ensures r.Some? ==> 0 <= r.value.offsetX && r.value.offsetX + r.value.scaled.width <= length
    ensures r.Some? ==> 0 <= r.value.offsetY && r.value.offsetY + r.value.scaled.height <= length
    ensures r.Some? ==> 0 <= length - r.value.scaled.width - 2 * r.value.offsetX <= 1
    ensures r.Some? ==> 0 <= length - r.value.scaled.height - 2 * r.value.offsetY <= 1
    ensures r.Some? && source.width > source.height ==> r.value.scaled.width == length
    ensures r.Some? && source.width <= source.height ==> r.value.scaled.height == length
  {
    var longer := Longer(source);
    if longer == 0 then None
    else
      var w := source.width * length / longer;
      var h := source.height * length / longer;
      ScaledWithin(source.width, length, longer);
      ScaledWithin(source.height, length, longer);
      if (w == 0 || h == 0) && Size(w, h) != source then None
      else Some(Layout(Size(w, h), (length - w) / 2, (length - h) / 2, Size(length, length)))
  }

  /** `side * length / longer` stays within `length`, and equals it for the longer side. */
  lemma ScaledWithin(side: nat, length: nat, longer: nat)
    requires 0 < longer && side <= longer
    ensures 0 <= side * length / longer <= length
    ensures side == longer ==> side * length / longer == length
    ensures side * length / longer == 0 <==> side * length < longer
  {
    DivIsZero(side * length, longer);
    assert side * length <= longer * length by {
      assert (longer - side) * length >= 0;
    }
    if side == longer {
      assert side * length == longer * length;
    }
    DivBound(side * length, longer, length);
  }

  lemma {:induction false} DivBound(x: nat, d: nat, bound: nat)
    requires 0 < d && x <= d * bound
    ensures x / d <= bound
    ensures x == d * bound ==> x / d == bound
  {
    var q, r := x / d, x % d;
    assert x == d * q + r && 0 <= r < d;
    if x == d * bound && q < bound {
      MulMonotone(q + 1, bound, d);
    }
  }

  /** A floor quotient is zero exactly when the dividend is below the divisor. */
  lemma DivIsZero(x: nat, d: nat)
    requires 0 < d
    ensures x / d == 0 <==> x < d
  {
    var q, r := x / d, x % d;
    assert x == d * q + r && 0 <= r < d;
    if q > 0 {
      MulMonotone(1, q, d);
    }
  }

  lemma {:induction false} MulMonotone(a: nat, b: nat, c: nat)
    requires a <= b
    ensures a * c <= b * c
  {
    assert b * c == a * c + (b - a) * c;
  }

  /**
    Aspect ratio is kept within one pixel: the shorter side is the exact
    proportional length rounded down.
   */
  lemma SquareKeepsAspect(source: Size, length: nat)
    requires length > 0 && SquareFits(source, length)
    ensures var l := SquareLayout(source, length).value;
      var longer := Longer(source);
      l.scaled.width * longer <= source.width * length < (l.scaled.width + 1) * longer &&
      l.scaled.height * longer <= source.height * length < (l.scaled.height + 1) * longer
  {
    var longer := Longer(source);
    FloorDivision(source.width * length, longer);
    FloorDivision(source.height * length, longer);
  }

  lemma FloorDivision(x: nat, d: nat)
    requires d > 0
    ensures (x / d) * d <= x < (x / d + 1) * d
  {
  }

  /** A square source fills the whole canvas: both offsets are zero. */
  lemma SquareSourceHasNoOffset(side: nat, length: nat)
    requires side > 0 && length > 0
    ensures var l := SquareLayout(Size(side, side), length).value;
      l.scaled == Size(length, length) && l.offsetX == 0 && l.offsetY == 0
  {
  }

  /** A 50 x 50 crop is scaled three times to 150 x 150 with no offset. */
  lemma FiftyPixelCropScalesThreeTimes()
    ensures CropSize(Box(10, 10, 60, 60)) == Some(Size(50, 50))
    ensures SquareLayout(Size(50, 50), TARGET_LENGTH) == Some(Layout(Size(150, 150), 0, 0, Size(150, 150)))
  {
    SquareSourceHasNoOffset(50, TARGET_LENGTH);
  }

  /** A 1000 x 3 strip would shrink to 150 x 0, which the image library refuses. */
  lemma ThinStripIsRefused()
    ensures !SquareFits(Size(1000, 3), TARGET_LENGTH)
    ensures SquareLayout(Size(1000, 3), TARGET_LENGTH).None?
  {
  }

  /** A 0 x 150 sliver is already its own scaled size, so it passes through, centred. */
  lemma EdgeSliverPassesThrough()
    ensures SquareFits(Size(0, 150), TARGET_LENGTH)
    ensures SquareLayout(Size(0, 150), TARGET_LENGTH) == Some(Layout(Size(0, 150), 75, 0, Size(150, 150)))
  {
  }

  /** Any image whose sides are between 1 and the target length can be squared. */
  lemma SmallImagesFit(source: Size, length: nat)
    requires 1 <= source.width <= length && 1 <= source.height <= length
    ensures SquareFits(source, length)
  {
    MulMonotone(1, source.width, length);
    MulMonotone(1, source.height, length);
    assert Longer(source) <= length;
  }

  /** ImageProcessor: an image that crop and square replace step by step. */
  class ImageProcessor {
    const length: nat
    var image: Size

    constructor (image: Size)
      ensures this.image == image && length == TARGET_LENGTH
    {
      this.image := image;
      length := TARGET_LENGTH;
    }

    /** crop: `ok` is false where the image library raises, and the image is then unchanged. */
    method Crop(box: Box) returns (ok: bool)
      modifies this`image
      ensures ok == CropSize(box).Some?
      ensures image == if ok then CropSize(box).value else old(image)
    {
      var size := CropSize(box);
      ok := size.Some?;
      if ok {
        image := size.value;
      }
    }

    /**
      square: the image becomes the `length` x `length` canvas; `ok` is
      false where the source raises (a division by zero, or a resize to a
      new size with a side of no pixels), and the image is then unchanged.
     */
    method Square() returns (ok: bool)
      requires length > 0
      modifies this`image
      ensures ok <==> SquareFits(old(image), length)
      ensures image == if ok then Size(length, length) else old(image)
    {
      var layout := SquareLayout(image, length);
      ok := layout.Some?;
      if ok {
        image := layout.value.canvas;
      }
    }
  }
}
