/** Reading one pixel and the exact colour search (`get_pixel_rgba`,
    `find_rgbas`). */
module ColourSearch {
  import opened Colours
  import opened Raster

  /** The packed colour at (x, y), or an error outside the grid. */
  function GetPixelRgba(img: Image, x: u32, y: u32): (r: Result<u32>)
    ensures r.Ok? <==> InBounds(img, x, y)
    ensures r.Err? ==> r.error == PixelOutOfBounds
    ensures r.Ok? ==> Unpack(r.value) == PixelAt(img, x, y)
  {
    match GetPixelChecked(img, x, y)
    case None => Err(PixelOutOfBounds)
    case Some(c) => UnpackPack(c); Ok(Pack(c))
  }

  /** The pixels of row y with column below `xEnd` whose sample equals the
      unpacked target, left to right. */
  function RowPositions(img: Image, target: u32, y: int, xEnd: int): seq<Pixel>
    requires 0 <= y < img.height && 0 <= xEnd <= img.width
    decreases xEnd
  {
    if xEnd == 0 then []
    else
      var x := xEnd - 1;
      RowPositions(img, target, y, x)
        + if PixelAt(img, x, y) == Unpack(target) then [Pixel(x, y, Pack(PixelAt(img, x, y)))] else []
  }

  /** The matching pixels of the rows above `yEnd`, in row-major order. */
  function PositionsUpTo(img: Image, target: u32, yEnd: int): seq<Pixel>
    requires 0 <= yEnd <= img.height
    decreases yEnd
  {
    if yEnd == 0 then [] else PositionsUpTo(img, target, yEnd - 1) + RowPositions(img, target, yEnd - 1, img.width)
  }

  /** Every pixel of the image whose colour equals the target, in the order
      of `enumerate_pixels`. */
  function Positions(img: Image, target: u32): seq<Pixel>
  {
    PositionsUpTo(img, target, img.height)
  }

  /** The pixel a match at (x, y) reports. */
  predicate IsMatchAt(img: Image, target: u32, p: Pixel)
  {
    InBounds(img, p.x, p.y) && ColourAt(img, p.x, p.y) == target && p.rgba == target
  }

  /** A row's matches lie in that row, left of the cursor. */
  lemma {:induction false} RowPositionsBounds(img: Image, target: u32, y: int, xEnd: int)
    requires 0 <= y < img.height && 0 <= xEnd <= img.width
    ensures forall p :: p in RowPositions(img, target, y, xEnd) ==> p.y == y && p.x < xEnd
    decreases xEnd
  {
    if xEnd > 0 {
      RowPositionsBounds(img, target, y, xEnd - 1);
    }
  }

  /** A row's matches are reported left to right. */
  lemma {:induction false} RowPositionsSorted(img: Image, target: u32, y: int, xEnd: int)
    requires 0 <= y < img.height && 0 <= xEnd <= img.width
    ensures RowMajorSorted(RowPositions(img, target, y, xEnd))
    decreases xEnd
  {
    if xEnd > 0 {
      var x := xEnd - 1;
      var before := RowPositions(img, target, y, x);
      var cell := if PixelAt(img, x, y) == Unpack(target) then [Pixel(x, y, Pack(PixelAt(img, x, y)))] else [];
      RowPositionsSorted(img, target, y, x);
      RowPositionsBounds(img, target, y, x);
      assert forall i, j :: 0 <= i < |before| && 0 <= j < |cell| ==> RowMajorBefore(before[i], cell[j]) by {
        forall i, j | 0 <= i < |before| && 0 <= j < |cell| ensures RowMajorBefore(before[i], cell[j]) {
          assert before[i] in before;
        }
      }
      SortedConcat(before, cell);
    }
  }

  /** A row reports exactly its matching pixels left of the cursor. */
  lemma {:induction false} RowPositionsMatches(img: Image, target: u32, y: int, xEnd: int)
    requires 0 <= y < img.height && 0 <= xEnd <= img.width
    ensures forall p :: p in RowPositions(img, target, y, xEnd) <==> p.y == y && p.x < xEnd && IsMatchAt(img, target, p)
    decreases xEnd
  {
    if xEnd > 0 {
      var x := xEnd - 1;
      RowPositionsMatches(img, target, y, x);
      PackInjective(PixelAt(img, x, y), Unpack(target));
      PackUnpack(target);
    }
  }

  /** The matches of the rows above yEnd lie above it. */
  lemma {:induction false} PositionsUpToBounds(img: Image, target: u32, yEnd: int)
    requires 0 <= yEnd <= img.height
    ensures forall p :: p in PositionsUpTo(img, target, yEnd) ==> p.y < yEnd
    decreases yEnd
  {
    if yEnd > 0 {
      PositionsUpToBounds(img, target, yEnd - 1);
      RowPositionsBounds(img, target, yEnd - 1, img.width);
    }
  }

  /** The matches of the rows above yEnd are in row-major order. */
  lemma {:induction false} PositionsUpToSorted(img: Image, target: u32, yEnd: int)
    requires 0 <= yEnd <= img.height
    ensures RowMajorSorted(PositionsUpTo(img, target, yEnd))
    decreases yEnd
  {
    if yEnd > 0 {
      var above := PositionsUpTo(img, target, yEnd - 1);
      var row := RowPositions(img, target, yEnd - 1, img.width);
      PositionsUpToSorted(img, target, yEnd - 1);
      PositionsUpToBounds(img, target, yEnd - 1);
      RowPositionsSorted(img, target, yEnd - 1, img.width);
      RowPositionsBounds(img, target, yEnd - 1, img.width);
      assert forall i, j :: 0 <= i < |above| && 0 <= j < |row| ==> RowMajorBefore(above[i], row[j]) by {
        forall i, j | 0 <= i < |above| && 0 <= j < |row| ensures RowMajorBefore(above[i], row[j]) {
          assert above[i] in above && row[j] in row;
        }
      }
      SortedConcat(above, row);
    }
  }

  /** The rows above yEnd report exactly their matching pixels. */
  lemma {:induction false} PositionsUpToMatches(img: Image, target: u32, yEnd: int)
    requires 0 <= yEnd <= img.height
    ensures forall p :: p in PositionsUpTo(img, target, yEnd) <==> p.y < yEnd && IsMatchAt(img, target, p)
    decreases yEnd
  {
    if yEnd > 0 {
      PositionsUpToMatches(img, target, yEnd - 1);
      RowPositionsMatches(img, target, yEnd - 1, img.width);
    }
  }

  /** The exact search finds every in-bounds pixel of the target colour and
      nothing else, each reported with the target as its colour, in strictly
      row-major order (so each at most once). */
  lemma PositionsSpec(img: Image, target: u32)
    ensures RowMajorSorted(Positions(img, target))
    ensures forall p :: p in Positions(img, target) <==> IsMatchAt(img, target, p)
  {
    PositionsUpToSorted(img, target, img.height);
    PositionsUpToMatches(img, target, img.height);
  }

  /** `AsyncFindRgbas::compute`: a scan of every pixel in `enumerate_pixels`
      order, keeping those equal to the unpacked target. */
  method FindRgbas(img: Image, target: u32) returns (positions: seq<Pixel>)
    ensures positions == Positions(img, target)
  {
    var rgba := Unpack(target);
    positions := [];
    var y := 0;
    while y < img.height
      invariant 0 <= y <= img.height
      invariant positions == PositionsUpTo(img, target, y)
    {
      var x := 0;
      while x < img.width
        invariant 0 <= x <= img.width
        invariant positions == PositionsUpTo(img, target, y) + RowPositions(img, target, y, x)
      {
        var pixel := PixelAt(img, x, y);
        if pixel == rgba {
          positions := positions + [Pixel(x, y, Pack(pixel))];
        }
        x := x + 1;
      }
      y := y + 1;
    }
  }
}
