/** The thumbnail arithmetic of TestPdf2ImagePdfbox.generateThumbnail: an image that fits in a
    size x size box is kept; otherwise its longer side becomes size and the shorter side is scaled
    in proportion, in Java int arithmetic. */
module ThumbnailScaler {
  import opened Outcomes
  import opened JavaInt

  /** What generateThumbnail returns: the image itself, or a new image of the given dimensions. */
  datatype Thumbnail = Unchanged | Resized(width: int, height: int)

  /** The dimensions of the resized image: width size and height size*h/w, or, for an image taller
      than wide, width size*w/h and height size. */
  function ScaledSize(width: int, height: int, size: int): (int, int)
    requires 0 < width && 0 < height
  {
    if height > width then (Div(Mul(size, width), height), size)
    else (size, Div(Mul(size, height), width))
  }

  /** generateThumbnail(img, size) for an img of the given positive int dimensions; new
      BufferedImage throws an IllegalArgumentException when a dimension is not positive. The image
      comes back unchanged exactly when it fits in the box: there is no upscaling. */
  function GenerateThumbnail(width: int, height: int, size: int): (r: Result<Thumbnail>)
    requires 0 < width <= INT_MAX && 0 < height <= INT_MAX && IsInt(size)
    ensures r == Ok(Unchanged) <==> width <= size && height <= size
  {
    if width <= size && height <= size then Ok(Unchanged)
    else
      var (w, h) := ScaledSize(width, height, size);
      if w <= 0 || h <= 0 then Err(IllegalArgument) else Ok(Resized(w, h))
  }

  /** generateThumbnail with the scaled side kept at one pixel at least, so that a very thin image
      still gets a thumbnail. */
  function GenerateThumbnailClamped(width: int, height: int, size: int): Result<Thumbnail>
    requires 0 < width <= INT_MAX && 0 < height <= INT_MAX && IsInt(size)
  {
    if width <= size && height <= size then Ok(Unchanged)
    else
      var (w, h) := ScaledSize(width, height, size);
      var (w', h') := (if w < 1 then 1 else w, if h < 1 then 1 else h);
      if w' <= 0 || h' <= 0 then Err(IllegalArgument) else Ok(Resized(w', h'))
  }

  lemma MulMonotone(x: int, y: int, b: int)
    requires x >= y && b > 0
    ensures x * b >= y * b
  {
    assert x * b - y * b == (x - y) * b;
  }

  /** q = a / b is the floor of a over b, and it stays below c when a < c * b. */
  lemma Floor(a: nat, b: int, c: int)
    requires 0 < b && a < c * b
    ensures (a / b) * b <= a < (a / b + 1) * b
    ensures a / b < c
  {
    var q := a / b;
    assert a == q * b + a % b;
    assert (q + 1) * b == q * b + b;
    if q >= c {
      MulMonotone(q, c, b);
    }
  }

  /** For an image taller than wide and taller than size, with no overflow: the height becomes
      size and the width is size*w/h rounded down, the largest width that keeps the aspect ratio
      from growing; a width that rounds to zero makes the constructor throw. */
  lemma PortraitScaling(width: int, height: int, size: int)
    requires 0 < width < height <= INT_MAX && 0 < size < height && size * width <= INT_MAX
    ensures var w := size * width / height;
      && w < size
      && w * height <= size * width < (w + 1) * height
      && GenerateThumbnail(width, height, size) == if w == 0 then Err(IllegalArgument) else Ok(Resized(w, size))
  {
    PortraitQuotient(width, height, size);
    PortraitResult(width, height, size);
  }

  lemma PortraitQuotient(width: int, height: int, size: int)
    requires 0 < width < height && 0 < size
    ensures var w := size * width / height;
      w < size && w * height <= size * width < (w + 1) * height
  {
    MulStrict(size, width, height);
    Floor(size * width, height, size);
  }

  lemma PortraitResult(width: int, height: int, size: int)
    requires 0 < width < height <= INT_MAX && 0 < size < height && size * width <= INT_MAX
    ensures var w := size * width / height;
      GenerateThumbnail(width, height, size) == if w == 0 then Err(IllegalArgument) else Ok(Resized(w, size))
  {
    ExactScaledSize(width, height, size);
    QuotientNonNegative(size * width, height);
    Resize(width, height, size);
  }

  lemma QuotientNonNegative(a: int, b: int)
    requires 0 <= a && 0 < b
    ensures 0 <= a / b
  {
  }

  /** Outside the box, generateThumbnail returns the scaled size, or fails on a side below one. */
  lemma Resize(width: int, height: int, size: int)
    requires 0 < width <= INT_MAX && 0 < height <= INT_MAX && IsInt(size)
    requires !(width <= size && height <= size)
    ensures var (w, h) := ScaledSize(width, height, size);
      GenerateThumbnail(width, height, size) == if w <= 0 || h <= 0 then Err(IllegalArgument) else Ok(Resized(w, h))
  {
  }

  /** Without overflow, the Java arithmetic of ScaledSize is the mathematical one. */
  lemma ExactScaledSize(width: int, height: int, size: int)
    requires 0 < width <= INT_MAX && 0 < height <= INT_MAX && 0 < size
    requires if height > width then size * width <= INT_MAX else size * height <= INT_MAX
    ensures ScaledSize(width, height, size) == if height > width then (size * width / height, size) else (size, size * height / width)
  {
    if height > width {
      MulExact(size, width);
      DivNonNegative(size * width, height);
    } else {
      MulExact(size, height);
      DivNonNegative(size * height, width);
    }
  }

  /** x * b < x * c when b < c, for a positive x. */
  lemma MulStrict(x: int, b: int, c: int)
    requires 0 < x && b < c
    ensures x * b < x * c
  {
    assert x * c - x * b == x * (c - b);
  }

  /** For an image at least as wide as tall and wider than size, with no overflow: the width
      becomes size and the height is size*h/w rounded down; a height that rounds to zero makes the
      constructor throw. */
  lemma LandscapeScaling(width: int, height: int, size: int)
    requires 0 < height <= width <= INT_MAX && 0 < size < width && size * height <= INT_MAX
    ensures var h := size * height / width;
      && h <= size
      && h * width <= size * height < (h + 1) * width
      && GenerateThumbnail(width, height, size) == if h == 0 then Err(IllegalArgument) else Ok(Resized(size, h))
  {
    LandscapeQuotient(width, height, size);
    LandscapeResult(width, height, size);
  }

  lemma LandscapeQuotient(width: int, height: int, size: int)
    requires 0 < height <= width && 0 < size
    ensures var h := size * height / width;
      h <= size && h * width <= size * height < (h + 1) * width
  {
    MulAtMost(size, height, width);
    MulSucc(size, width);
    Floor(size * height, width, size + 1);
  }

  /** x * b <= x * c when b <= c, for a positive x. */
  lemma MulAtMost(x: int, b: int, c: int)
    requires 0 < x && b <= c
    ensures x * b <= x * c
  {
    assert x * c - x * b == x * (c - b);
  }

  lemma MulSucc(x: int, y: int)
    ensures (x + 1) * y == x * y + y
  {
  }

  lemma LandscapeResult(width: int, height: int, size: int)
    requires 0 < height <= width <= INT_MAX && 0 < size < width && size * height <= INT_MAX
    ensures var h := size * height / width;
      GenerateThumbnail(width, height, size) == if h == 0 then Err(IllegalArgument) else Ok(Resized(size, h))
  {
    ExactScaledSize(width, height, size);
    QuotientNonNegative(size * height, width);
    Resize(width, height, size);
  }

  /** A square image larger than the box becomes exactly size x size. */
  lemma SquareScaling(side: int, size: int)
    requires 0 < size < side <= INT_MAX && size * side <= INT_MAX
    ensures GenerateThumbnail(side, side, size) == Ok(Resized(size, size))
  {
    LandscapeScaling(side, side, size);
    var h := size * side / side;
    assert h * side <= size * side < (h + 1) * side;
    if h < size {
      MulMonotone(size, h + 1, side);
    }
    if h > size {
      MulMonotone(h, size + 1, side);
    }
  }

  /** When the image is resized, neither side exceeds size and the longer side is size exactly. */
  lemma ResizedWithinBox(width: int, height: int, size: int)
    requires 0 < width <= INT_MAX && 0 < height <= INT_MAX && 0 < size
    requires size * width <= INT_MAX && size * height <= INT_MAX
    requires GenerateThumbnail(width, height, size).Ok?
    ensures match GenerateThumbnail(width, height, size).value
      case Unchanged => true
      case Resized(w, h) => 0 < w <= size && 0 < h <= size && (if height > width then h == size else w == size)
  {
    if !(width <= size && height <= size) {
      if height > width {
        PortraitScaling(width, height, size);
      } else {
        LandscapeScaling(width, height, size);
      }
    }
  }

  /** As written, a thin image fails: 150*1/1000 rounds to a height of zero, and new BufferedImage
      rejects it. */
  lemma ThinImageFails()
    ensures GenerateThumbnail(1000, 1, 150) == Err(IllegalArgument)
  {
    MulExact(150, 1);
    DivNonNegative(150, 1000);
  }

  /** The clamped version never fails for a positive size, keeps the image inside the box with its
      longer side at size, and differs from generateThumbnail only where that one throws. */
  lemma ClampedWithinBox(width: int, height: int, size: int)
    requires 0 < width <= INT_MAX && 0 < height <= INT_MAX && 0 < size
    requires size * width <= INT_MAX && size * height <= INT_MAX
    ensures var r := GenerateThumbnailClamped(width, height, size);
      && r.Ok?
      && (r.value == Unchanged <==> width <= size && height <= size)
      && (r.value.Resized? ==>
            0 < r.value.width <= size && 0 < r.value.height <= size
            && (if height > width then r.value.height == size else r.value.width == size))
      && (GenerateThumbnail(width, height, size).Ok? ==> GenerateThumbnail(width, height, size) == r)
  {
    if !(width <= size && height <= size) {
      if height > width {
        PortraitScaling(width, height, size);
      } else {
        LandscapeScaling(width, height, size);
      }
    }
  }

  /** The clamped version gives the thin image a one-pixel-high thumbnail. */
  lemma ThinImageClamped()
    ensures GenerateThumbnailClamped(1000, 1, 150) == Ok(Resized(150, 1))
  {
    MulExact(150, 1);
    DivNonNegative(150, 1000);
  }
}
