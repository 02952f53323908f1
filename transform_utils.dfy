/** Pixel boxes: scaling a box by a uniform factor with a check that no
    coordinate was rounded, and cropping an image to a box. */
module TransformUtils {
  import opened Wrappers
  import opened PySeq

  /** A pixel position: `x` is the column, `y` the row. */
  datatype Point = Point(x: int, y: int)

  /** `((x0, y0), (x1, y1))`: the top-left and bottom-right corners. */
  datatype Box = Box(topLeft: Point, bottomRight: Point)

  type Positive = d: int | d > 0 witness 1

  /** The scale factor `num / den`, exactly. */
  datatype Ratio = Ratio(num: int, den: Positive)

  /** numpy's `astype(int)`: the quotient truncated toward zero (Dafny's
      `/` rounds down, which differs for a negative inexact quotient). */
  function TruncDiv(a: int, d: Positive): (q: int)
    ensures 0 <= a ==> q * d <= a < q * d + d
    ensures a < 0 ==> q * d - d < a <= q * d
  {
    if a >= 0 || a % d == 0 then a / d else a / d + 1
  }

  /** One coordinate times the scale, truncated. */
  function ScaleCoord(c: int, s: Ratio): int
  {
    TruncDiv(c * s.num, s.den)
  }

  /** `int_scaled < scaled` for one coordinate, compared exactly. */
  predicate RoundsDown(c: int, s: Ratio)
  {
    ScaleCoord(c, s) * s.den < c * s.num
  }

  function Coords(b: Box): seq<int>
  {
    [b.topLeft.x, b.topLeft.y, b.bottomRight.x, b.bottomRight.y]
  }

  /** `(int_scaled < scaled).any()`. */
  predicate AnyRoundsDown(b: Box, s: Ratio)
  {
    exists c :: c in Coords(b) && RoundsDown(c, s)
  }

  function ScalePoint(p: Point, s: Ratio): Point
  {
    Point(ScaleCoord(p.x, s), ScaleCoord(p.y, s))
  }

  /** The truncated box, and whether the rounding warning was printed. */
  datatype Scaled = Scaled(box: Box, warned: bool)

  /** The `ValueError` raised when rounding is not allowed. */
  datatype RoundingError = RoundingError(scale: Ratio, box: Box)

  /** `scale_pixel_box_coordinates(box, scale, allow_rounding)`. */
  function ScalePixelBoxCoordinates(b: Box, s: Ratio, allowRounding: bool): (r: Result<Scaled, RoundingError>)
    ensures r.Failure? <==> !allowRounding && AnyRoundsDown(b, s)
    ensures r.Failure? ==> r.error == RoundingError(s, b)
    ensures r.Success? ==> r.value.warned <==> AnyRoundsDown(b, s)
    ensures r.Success? ==> Coords(r.value.box) == seq(4, i requires 0 <= i < 4 => ScaleCoord(Coords(b)[i], s))
  {
    var scaled := Box(ScalePoint(b.topLeft, s), ScalePoint(b.bottomRight, s));
    if AnyRoundsDown(b, s) then
      if allowRounding then Success(Scaled(scaled, true))
      else Failure(RoundingError(s, b))
    else Success(Scaled(scaled, false))
  }

  /** Truncating `a / d` loses something exactly when `a` is positive and
      not a multiple of `d`; a negative `a` is rounded up. */
  lemma TruncBelow(a: int, d: Positive)
    ensures TruncDiv(a, d) * d < a <==> a > 0 && a % d != 0
  {
    if a >= 0 {
      var q, m := a / d, a % d;
      assert a == d * q + m;
      assert TruncDiv(a, d) * d == d * q;
    }
  }

  /** A multiple of `d` divides exactly, whatever its sign. */
  lemma TruncExact(a: int, d: Positive)
    requires a % d == 0
    ensures TruncDiv(a, d) * d == a
  {
    assert a == d * (a / d) + a % d;
  }

  /** A coordinate is rounded down exactly when its exact product is positive
      and not a whole number; a negative product is rounded up by the
      truncation, so it never trips the check. */
  lemma RoundsDownMeaning(c: int, s: Ratio)
    ensures RoundsDown(c, s) <==> c * s.num > 0 && (c * s.num) % s.den != 0
  {
    TruncBelow(c * s.num, s.den);
  }

  /** When every product is a whole number nothing is rounded: the call
      succeeds without a warning whatever `allow_rounding` is, and each
      returned coordinate times the denominator is the exact product. */
  lemma ScaleExact(b: Box, s: Ratio, allowRounding: bool)
    requires forall c :: c in Coords(b) ==> (c * s.num) % s.den == 0
    ensures var r := ScalePixelBoxCoordinates(b, s, allowRounding);
            && r.Success?
            && !r.value.warned
            && forall i :: 0 <= i < 4 ==> Coords(r.value.box)[i] * s.den == Coords(b)[i] * s.num
  {
    forall c | c in Coords(b)
      ensures !RoundsDown(c, s) && ScaleCoord(c, s) * s.den == c * s.num
    {
      RoundsDownMeaning(c, s);
      TruncExact(c * s.num, s.den);
    }
  }

  /** A whole-number scale never rounds. */
  lemma IntegerScaleNeverFails(b: Box, n: int)
    ensures var r := ScalePixelBoxCoordinates(b, Ratio(n, 1), false);
            r.Success? && r.value.box == Box(Point(b.topLeft.x * n, b.topLeft.y * n), Point(b.bottomRight.x * n, b.bottomRight.y * n))
  {
    ScaleExact(b, Ratio(n, 1), false);
  }

  /** With rounding allowed the call never fails, and each returned
      non-negative coordinate is the largest whole number not above the
      exact product. */
  lemma AllowedRoundingIsFloor(b: Box, s: Ratio)
    ensures var r := ScalePixelBoxCoordinates(b, s, true);
            && r.Success?
            && forall i :: 0 <= i < 4 && Coords(b)[i] * s.num >= 0 ==>
                 Coords(r.value.box)[i] * s.den <= Coords(b)[i] * s.num < (Coords(r.value.box)[i] + 1) * s.den
  {
    var r := ScalePixelBoxCoordinates(b, s, true);
    forall i | 0 <= i < 4 && Coords(b)[i] * s.num >= 0
      ensures Coords(r.value.box)[i] * s.den <= Coords(b)[i] * s.num < (Coords(r.value.box)[i] + 1) * s.den
    {
      TruncFloor(Coords(b)[i] * s.num, s.den);
    }
  }

  /** On a non-negative dividend truncation is the floor. */
  lemma TruncFloor(a: int, d: Positive)
    requires a >= 0
    ensures TruncDiv(a, d) * d <= a < (TruncDiv(a, d) + 1) * d
  {
    var q := TruncDiv(a, d);
    assert (q + 1) * d == q * d + d;
  }

  /** A 2-D image: a sequence of rows. */
  type Image<T> = seq<seq<T>>

  predicate Rectangular<T>(img: Image<T>, width: nat)
  {
    forall i :: 0 <= i < |img| ==> |img[i]| == width
  }

  /** `crop_image(img, ((x0, y0), (x1, y1)))`: `img[y0:y1, x0:x1]`, rows
      selected by the y coordinates and columns by the x coordinates. */
  function CropImage<T>(img: Image<T>, b: Box): (crop: Image<T>)
    ensures |crop| <= |img|
  {
    var rows := Slice(img, b.topLeft.y, b.bottomRight.y);
    seq(|rows|, i requires 0 <= i < |rows| => Slice(rows[i], b.topLeft.x, b.bottomRight.x))
  }

  /** Cropping a rectangular image, with Python's rules for negative and
      out-of-range bounds: the crop is rectangular, its size is the clamped
      extent of each range, and each pixel comes from the matching offset. */
  lemma CropShape<T>(img: Image<T>, width: nat, b: Box)
    requires Rectangular(img, width)
    ensures var y0, y1 := SliceIndex(b.topLeft.y, |img|), SliceIndex(b.bottomRight.y, |img|);
            var x0, x1 := SliceIndex(b.topLeft.x, width), SliceIndex(b.bottomRight.x, width);
            var crop := CropImage(img, b);
            && |crop| == (if y0 <= y1 then y1 - y0 else 0)
            && Rectangular(crop, if x0 <= x1 then x1 - x0 else 0)
            && forall i, j :: 0 <= i < |crop| && 0 <= j < |crop[i]| ==> crop[i][j] == img[y0 + i][x0 + j]
  {
  }

  /** For a box inside the image the crop has `y1 - y0` rows of `x1 - x0`
      pixels, and pixel `(i, j)` of the crop is pixel `(y0 + i, x0 + j)`. */
  lemma CropInBounds<T>(img: Image<T>, width: nat, b: Box)
    requires Rectangular(img, width)
    requires 0 <= b.topLeft.x <= b.bottomRight.x <= width
    requires 0 <= b.topLeft.y <= b.bottomRight.y <= |img|
    ensures var crop := CropImage(img, b);
            && |crop| == b.bottomRight.y - b.topLeft.y
            && Rectangular(crop, b.bottomRight.x - b.topLeft.x)
            && forall i, j :: 0 <= i < |crop| && 0 <= j < |crop[i]| ==>
                 crop[i][j] == img[b.topLeft.y + i][b.topLeft.x + j]
  {
    CropShape(img, width, b);
  }
}
