/** The raster the engine analyses, the values it reports, and the
    bounding-box arithmetic shared by the template searches. */
module Raster {
  import opened Colours

  /** A width x height grid of RGBA samples, held as `height` rows of
      `width` samples each, top row first. */
  datatype RgbaImage = RgbaImage(width: u32, height: u32, rows: seq<seq<Rgba>>)

  type Image = img: RgbaImage
    | |img.rows| == img.height && forall y :: 0 <= y < |img.rows| ==> |img.rows[y]| == img.width
    witness RgbaImage(0, 0, [])

  /** A sampled point with its packed colour. */
  datatype Pixel = Pixel(x: u32, y: u32, rgba: u32)

  /** A sparse pattern of pixels. */
  datatype Feature = Feature(pixels: seq<Pixel>)

  /** The reasons an analysis can fail, one per message of the source. */
  datatype Error =
    | PixelOutOfBounds        // "Pixel out of bounds"
    | EmptyFeature            // "This feature has no pixels"
    | FeatureBeyondImage      // "Feature, when placed at the given top_left point, extends beyond ..."
    | StartOutsideImage       // "Start point is outside image boundaries."
    | EndOutsideImage         // "End point is outside image boundaries."
    | CoordinatesOutsideImage // "Coordinates are outside image boundaries."

  datatype Result<T> = Ok(value: T) | Err(error: Error)

  datatype Option<T> = None | Some(value: T)

  predicate InBounds(img: Image, x: int, y: int)
  {
    0 <= x < img.width && 0 <= y < img.height
  }

  /** The sample at column x, row y (the image crate's `get_pixel`). */
  function PixelAt(img: Image, x: int, y: int): Rgba
    requires InBounds(img, x, y)
  {
    img.rows[y][x]
  }

  /** The image crate's `get_pixel_checked`: a sample only inside the grid. */
  function GetPixelChecked(img: Image, x: int, y: int): Option<Rgba>
  {
    if InBounds(img, x, y) then Some(PixelAt(img, x, y)) else None
  }

  /** The packed colour at a point inside the grid. */
  function ColourAt(img: Image, x: int, y: int): u32
    requires InBounds(img, x, y)
  {
    Pack(PixelAt(img, x, y))
  }

  /** Row-major order: by row, then by column within a row. */
  predicate RowMajorBefore(p: Pixel, q: Pixel)
  {
    p.y < q.y || (p.y == q.y && p.x < q.x)
  }

  predicate RowMajorSorted(s: seq<Pixel>)
  {
    forall i, j :: 0 <= i < j < |s| ==> RowMajorBefore(s[i], s[j])
  }

  /** A strictly row-major sequence holds each pixel at most once. */
  lemma SortedOnce(s: seq<Pixel>, p: Pixel)
    requires RowMajorSorted(s)
    ensures multiset(s)[p] == if p in s then 1 else 0
  {
    if s != [] {
      var last := s[|s| - 1];
      var init := s[..|s| - 1];
      assert s == init + [last];
      SortedOnce(init, p);
      if p == last {
        assert p !in init by {
          forall i | 0 <= i < |init| ensures init[i] != p {
            assert RowMajorBefore(s[i], s[|s| - 1]);
          }
        }
      }
    }
  }

  /** Concatenating two sorted runs, the first entirely before the second,
      keeps the order. */
  lemma SortedConcat(a: seq<Pixel>, b: seq<Pixel>)
    requires RowMajorSorted(a) && RowMajorSorted(b)
    requires forall i, j :: 0 <= i < |a| && 0 <= j < |b| ==> RowMajorBefore(a[i], b[j])
    ensures RowMajorSorted(a + b)
  {
  }

  function Min(a: int, b: int): int { if a <= b then a else b }
  function Max(a: int, b: int): int { if a <= b then b else a }

  /** The bounding box of a pattern's coordinates, corners inclusive. */
  datatype Box = Box(minX: int, minY: int, maxX: int, maxY: int)
  {
    function Width(): int { maxX - minX + 1 }
    function Height(): int { maxY - minY + 1 }
  }

  /** The bounding box of a non-empty pattern: the least and greatest
      column and row over its pixels, which the source takes with `min()`
      and `max()` over the coordinate iterators (here folded pixel by
      pixel). */
  function BoundingBox(pixels: seq<Pixel>): (b: Box)
    requires |pixels| > 0
    ensures forall p :: p in pixels ==> b.minX <= p.x <= b.maxX && b.minY <= p.y <= b.maxY
    ensures 1 <= b.Width() && 1 <= b.Height()
    decreases |pixels|
  {
    var p := pixels[|pixels| - 1];
    if |pixels| == 1 then Box(p.x, p.y, p.x, p.y)
    else
      var init := pixels[..|pixels| - 1];
      var b := BoundingBox(init);
      assert pixels == init + [p];
      Box(Min(b.minX, p.x), Min(b.minY, p.y), Max(b.maxX, p.x), Max(b.maxY, p.y))
  }

  /** The box is tight: each of its sides is touched by a pattern pixel. */
  lemma {:induction false} BoundingBoxTight(pixels: seq<Pixel>)
    requires |pixels| > 0
    ensures exists p :: p in pixels && p.x == BoundingBox(pixels).minX
    ensures exists p :: p in pixels && p.y == BoundingBox(pixels).minY
    ensures exists p :: p in pixels && p.x == BoundingBox(pixels).maxX
    ensures exists p :: p in pixels && p.y == BoundingBox(pixels).maxY
    decreases |pixels|
  {
    var last := pixels[|pixels| - 1];
    assert last in pixels;
    if |pixels| > 1 {
      var init := pixels[..|pixels| - 1];
      BoundingBoxTight(init);
      assert forall q :: q in init ==> q in pixels;
    }
  }

  /** The bounding box is the one box that holds every pixel and has a
      pixel on each of its sides. */
  lemma BoundingBoxIs(pixels: seq<Pixel>, b: Box, left: Pixel, top: Pixel, right: Pixel, bottom: Pixel)
    requires forall p :: p in pixels ==> b.minX <= p.x <= b.maxX && b.minY <= p.y <= b.maxY
    requires left in pixels && top in pixels && right in pixels && bottom in pixels
    requires left.x == b.minX && top.y == b.minY && right.x == b.maxX && bottom.y == b.maxY
    ensures BoundingBox(pixels) == b
  {
    BoundingBoxTight(pixels);
  }
}
