/** Image ingestion (main/views.py, process_and_save_image): an uploaded
    picture is turned upright according to its EXIF orientation tag, shrunk
    to fit a 1200×1200 box, classified as horizontal or vertical from its
    final size, and recorded as an ArticleImage row. Pixels, decoding and
    encoding belong to the imaging library and are not modelled: an image
    is its size, and the library's `thumbnail` is passed in as a function
    on sizes. */
module ImageUpload {
  import opened Wrappers
  import opened Models

  /** A side length in pixels; an opened image has at least one pixel. */
  type Pixels = n: int | 1 <= n witness 1

  datatype Size = Size(width: Pixels, height: Pixels)

  /** What `img._getexif()` produced: it raised, or it returned a tag table
      that may be None (no EXIF data). */
  datatype ExifRead = ExifFailed | ExifTable(tags: Option<map<int, int>>)

  /** EXIF tag 274, "Orientation". */
  const OrientationTag := 274

  /** The box given to `img.thumbnail((1200, 1200))`. */
  const MaxSide := 1200

  // ---------------------------------------------------------------------
  // Turning the picture upright
  // ---------------------------------------------------------------------

  /** The EXIF block was read, is not empty, and its orientation tag is `v`. */
  predicate TagIs(exif: ExifRead, v: int) {
    exif.ExifTable? && exif.tags.Some? && OrientationTag in exif.tags.value
    && exif.tags.value[OrientationTag] == v
  }

  /** The size effect of `img.rotate(angle, expand=True)` for a quarter
      turn: the canvas grows to fit, so an odd number of quarter turns
      swaps width and height and an even number keeps them. */
  function Rotate(s: Size, angle: int): (r: Size)
    requires angle % 90 == 0
    ensures multiset{r.width, r.height} == multiset{s.width, s.height}
    ensures angle % 180 == 90 ==> r.width == s.height && r.height == s.width
    ensures angle % 180 == 0 ==> r == s
  {
    if angle % 180 == 90 then Size(s.height, s.width) else s
  }

  /** Two rotations in a row have the size effect of one rotation by the
      sum of the angles; in particular a full turn changes nothing. */
  lemma RotateCompose(s: Size, a: int, b: int)
    requires a % 90 == 0 && b % 90 == 0
    ensures (a + b) % 90 == 0
    ensures Rotate(Rotate(s, a), b) == Rotate(s, a + b)
  {
    HalfTurns(a);
    HalfTurns(b);
    var ra, rb := a % 180, b % 180;
    var q := a / 180 + b / 180;
    assert a + b == 180 * q + ra + rb;
    if ra == 90 && rb == 90 {
      assert a + b == 180 * (q + 1);
      assert (a + b) % 180 == 0;
    } else {
      assert (a + b) % 180 == ra + rb;
    }
    HalfTurns(a + b);
  }

  /** A multiple of 90 is an even or an odd number of quarter turns. */
  lemma HalfTurns(a: int)
    ensures a % 90 == 0 <==> a % 180 == 0 || a % 180 == 90
  {
    var q, r := a / 180, a % 180;
    assert a == 180 * q + r;
    assert a == 90 * (2 * q) + r;
    if r < 90 {
      assert a % 90 == r;
    } else {
      assert a == 90 * (2 * q + 1) + (r - 90);
      assert a % 90 == r - 90;
    }
  }

  /** The orientation correction: tag 3 (rotate by 180°) keeps width and
      height, tags 6 and 8 (rotate by 270° and by 90°) swap them, and any
      other tag, a missing or empty EXIF block, or an error while reading
      it leaves the image as it is. */
  method CorrectOrientation(img: Size, exif: ExifRead) returns (out: Size)
    ensures TagIs(exif, 3) ==> out == img
    ensures TagIs(exif, 6) || TagIs(exif, 8) ==> out == Size(img.height, img.width)
    ensures !TagIs(exif, 3) && !TagIs(exif, 6) && !TagIs(exif, 8) ==> out == img
    ensures out == Upright(img, exif)
  {
    out := img;
    match exif
    case ExifFailed =>
      // the `except Exception: pass` branch
    case ExifTable(tags) =>
      if tags.Some? && tags.value != map[] {
        var orientation := if OrientationTag in tags.value then Some(tags.value[OrientationTag]) else None;
        if orientation == Some(3) {
          out := Rotate(out, 180);
        } else if orientation == Some(6) {
          out := Rotate(out, 270);
        } else if orientation == Some(8) {
          out := Rotate(out, 90);
        }
      }
  }

  /** The size after the orientation correction: a quarter turn (tag 6 or
      8) swaps the sides, anything else keeps them; either way the picture
      keeps its two side lengths and its area. */
  function Upright(img: Size, exif: ExifRead): (r: Size)
    ensures multiset{r.width, r.height} == multiset{img.width, img.height}
    ensures r.width * r.height == img.width * img.height
    ensures TagIs(exif, 6) || TagIs(exif, 8) ==> r.width == img.height && r.height == img.width
    ensures !TagIs(exif, 6) && !TagIs(exif, 8) ==> r == img
  {
    if TagIs(exif, 6) || TagIs(exif, 8) then Size(img.height, img.width) else img
  }

  // ---------------------------------------------------------------------
  // Shrinking to the 1200×1200 box
  // ---------------------------------------------------------------------

  predicate FitsBox(s: Size) {
    s.width <= MaxSide && s.height <= MaxSide
  }

  /** What `thumbnail((1200, 1200))` guarantees about the new size `t` of
      an image of size `s`: it fits the box, it is never larger than
      before, an image that already fits is left alone, scaling both
      sides by one factor keeps the longer side the longer one, and the
      aspect ratio is kept up to less than one pixel of rounding. */
  predicate IsThumbnailOf(t: Size, s: Size) {
    FitsBox(t) && t.width <= s.width && t.height <= s.height
    && (FitsBox(s) ==> t == s)
    && (s.height <= s.width ==> t.height <= t.width)
    && (s.width <= s.height ==> t.width <= t.height)
    && AspectKept(t, s)
  }

  /** `t` has the proportions of `s` up to less than one pixel on the
      shorter side: |t.width/t.height - s.width/s.height|, scaled by the
      longer side of `s`, stays below one. */
  predicate AspectKept(t: Size, s: Size) {
    var longer := if s.width < s.height then s.height else s.width;
    -longer < t.width * s.height - t.height * s.width < longer
  }

  ghost predicate IsThumbnailer(thumbnail: Size -> Size) {
    forall s :: IsThumbnailOf(thumbnail(s), s)
  }

  function AtLeastOne(n: int): Pixels {
    if n < 1 then 1 else n
  }

  lemma MulMonotone(x: int, y: int, b: nat)
    requires x <= y
    ensures x * b <= y * b
  {
  }

  lemma MulAtLeastOnce(d: nat, b: nat)
    ensures d == 0 || b <= d * b
  {
    if d != 0 {
      MulMonotone(1, d, b);
    }
  }

  /** Euclidean division of a natural number: the remainder is below the
      divisor. */
  lemma DivRemainder(a: nat, b: int)
    requires 0 < b
    ensures 0 <= a - (a / b) * b < b
  {
  }

  lemma QuotientAtMost(a: nat, b: int, c: nat)
    requires 0 < b && a <= c * b
    ensures a / b <= c
  {
    DivRemainder(a, b);
    if a / b > c {
      MulMonotone(c + 1, a / b, b);
    }
  }

  lemma QuotientExact(c: nat, b: int)
    requires 0 < b
    ensures c * b / b == c
  {
    var q := c * b / b;
    QuotientAtMost(c * b, b, c);
    DivRemainder(c * b, b);
    assert (c - q) * b == c * b - q * b;
    MulAtLeastOnce(c - q, b);
  }

  /** Scaling the shorter side by MaxSide / long, rounded down, gives at
      most the shorter side itself and at most MaxSide, equal sides stay
      equal, and less than one pixel is lost. */
  lemma ScaleDown(short: Pixels, long: Pixels)
    requires short <= long && MaxSide < long
    ensures short * MaxSide / long <= short
    ensures short * MaxSide / long <= MaxSide
    ensures short == long ==> short * MaxSide / long == MaxSide
    ensures 0 <= short * MaxSide - (short * MaxSide / long) * long < long
  {
    var a := short * MaxSide;
    MulMonotone(MaxSide, long, short);
    QuotientAtMost(a, long, short);
    MulMonotone(short, long, MaxSide);
    QuotientAtMost(a, long, MaxSide);
    if short == long {
      QuotientExact(MaxSide, long);
    }
    DivRemainder(a, long);
  }

  /** A thumbnail that scales the longer side to 1200 and rounds the other
      side down (never below one pixel). */
  function FloorThumbnail(s: Size): (t: Size)
    ensures IsThumbnailOf(t, s)
  {
    if FitsBox(s) then s
    else if s.height <= s.width then
      ScaleDown(s.height, s.width);
      Size(MaxSide, AtLeastOne(s.height * MaxSide / s.width))
    else
      ScaleDown(s.width, s.height);
      Size(AtLeastOne(s.width * MaxSide / s.height), MaxSide)
  }

  lemma FloorThumbnailIsThumbnailer()
    ensures IsThumbnailer(FloorThumbnail)
  {
    forall s ensures IsThumbnailOf(FloorThumbnail(s), s) {
    }
  }

  // ---------------------------------------------------------------------
  // Orientation classification
  // ---------------------------------------------------------------------

  datatype Orientation = Horizontal | Vertical {
    /** The value stored in ArticleImage.orientation. */
    function Value(): string {
      match this
      case Horizontal => "horizontal"
      case Vertical => "vertical"
    }
  }

  /** `'vertical' if height > width else 'horizontal'`. */
  function Classify(s: Size): (o: Orientation)
    ensures o == Vertical <==> s.height > s.width
  {
    if s.height > s.width then Vertical else Horizontal
  }

  /** The stored value is one of ArticleImage's orientation choices. */
  lemma OrientationIsChoice(o: Orientation)
    ensures IsOrientationValue(o.Value())
    ensures o.Value() != []
  {
    assert OrientationChoices[0].0 == Horizontal.Value();
    assert OrientationChoices[1].0 == Vertical.Value();
  }

  // ---------------------------------------------------------------------
  // The whole upload
  // ---------------------------------------------------------------------

  /** What `Image.open` makes of an uploaded file. */
  datatype Decoded = Undecodable | Picture(size: Size, exif: ExifRead)

  /** An uploaded file: its name, what it decodes to, and whether
      `img.save(full_path, optimize=True, quality=70)` can write it. The
      imaging library picks the output format from the name's extension and
      refuses a name without a known extension, or an image mode the format
      cannot store (a transparent image saved as JPEG); which files those
      are is the library's business, so it is an input here. */
  datatype Upload = Upload(name: string, decoded: Decoded, encodes: bool)

  /** `Image.open` raised, or `img.save` raised. Either exception leaves
      the function before the row is created. */
  datatype UploadError = DecodeError | EncodeError

  /** The row created for the upload and the size of the image saved. */
  datatype Normalized = Normalized(row: ArticleImage, size: Size)

  /** `os.path.join('article_images', uploaded_file.name)`: the file keeps
      its name, inside the `article_images` folder. */
  function ImagePath(name: string): (r: string)
    ensures |r| == 15 + |name| && r[..15] == "article_images/" && r[15..] == name
  {
    "article_images/" + name
  }

  /** process_and_save_image for one uploaded file. A file that does not
      decode, or whose image cannot be written, fails and gets no row;
      otherwise the image is turned upright, shrunk, and its row records
      the article it was uploaded for, the path derived from the file name
      and the orientation of the final size. */
  method ProcessAndSaveImage(upload: Upload, article: Article, thumbnail: Size -> Size) returns (r: Result<Normalized, UploadError>)
    ensures r.Err? <==> upload.decoded.Undecodable? || !upload.encodes
    ensures r == Err(DecodeError) <==> upload.decoded.Undecodable?
    ensures r == Err(EncodeError) <==> upload.decoded.Picture? && !upload.encodes
    ensures r.Ok? ==> r.value.size == thumbnail(Upright(upload.decoded.size, upload.decoded.exif))
    ensures r.Ok? ==> r.value.row.article == article && r.value.row.image == ImagePath(upload.name)
    ensures r.Ok? ==> IsOrientationValue(r.value.row.orientation) && r.value.row.orientation != []
    ensures r.Ok? ==> (r.value.row.orientation == "vertical" <==> r.value.size.height > r.value.size.width)
    ensures r.Ok? && IsThumbnailer(thumbnail) ==> FitsBox(r.value.size)
  {
    if upload.decoded.Undecodable? {
      return Err(DecodeError);
    }
    var img := upload.decoded.size;
    img := CorrectOrientation(img, upload.decoded.exif);
    img := thumbnail(img);
    var orientation := Classify(img);
    OrientationIsChoice(orientation);
    var imagePath := ImagePath(upload.name);
    if !upload.encodes {
      return Err(EncodeError);
    }
    r := Ok(Normalized(ArticleImage(article, imagePath, orientation.Value()), img));
  }

  // ---------------------------------------------------------------------
  // Consequences
  // ---------------------------------------------------------------------

  /** The orientation is computed after the correction: an image stored
      sideways (tag 6 or 8) whose stored shape is portrait is classified
      by its upright, landscape shape (e.g. 400×600 with tag 6 becomes
      600×400, horizontal). */
  lemma SidewaysPortraitIsHorizontal(img: Size, exif: ExifRead, thumbnail: Size -> Size)
    requires IsThumbnailer(thumbnail)
    requires TagIs(exif, 6) || TagIs(exif, 8)
    requires img.width < img.height
    ensures Classify(thumbnail(Upright(img, exif))) == Horizontal
  {
    assert IsThumbnailOf(thumbnail(Upright(img, exif)), Upright(img, exif));
  }

  /** A landscape image without a swapping tag stays horizontal after the
      thumbnail, and fits the box (e.g. 3000×1500). */
  lemma LandscapeStaysHorizontal(img: Size, exif: ExifRead, thumbnail: Size -> Size)
    requires IsThumbnailer(thumbnail)
    requires !TagIs(exif, 6) && !TagIs(exif, 8)
    requires img.height <= img.width
    ensures FitsBox(thumbnail(Upright(img, exif)))
    ensures Classify(thumbnail(Upright(img, exif))) == Horizontal
  {
    assert IsThumbnailOf(thumbnail(Upright(img, exif)), Upright(img, exif));
  }

  /** With the floor-rounding thumbnail a 3000×1500 picture becomes
      1200×600 and is horizontal. */
  lemma FloorThumbnailExample()
    ensures FloorThumbnail(Size(3000, 1500)) == Size(1200, 600)
    ensures Classify(FloorThumbnail(Size(3000, 1500))) == Horizontal
  {
  }
}
