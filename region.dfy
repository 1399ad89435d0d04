/** Rectangular regions given by two corners: cutting a region out as a
    pattern (`get_feature`) and counting its colours
    (`get_colour_frequencies`). */
module Regions {
  import opened Colours
  import opened Raster

  /** The rectangle spanned by two corners given in any order, as the
      inclusive box from the smaller to the larger coordinates. */
  function Corners(startX: u32, startY: u32, endX: u32, endY: u32): (r: Box)
    ensures r.minX <= r.maxX && r.minY <= r.maxY
    ensures r.minX == startX || r.minX == endX
    ensures r.maxX == startX || r.maxX == endX
    ensures r.minY == startY || r.minY == endY
    ensures r.maxY == startY || r.maxY == endY
  {
    Box(Min(startX, endX), Min(startY, endY), Max(startX, endX), Max(startY, endY))
  }

  /** Both corners of the box lie inside the image. */
  predicate Inside(img: Image, r: Box)
  {
    0 <= r.minX <= r.maxX < img.width && 0 <= r.minY <= r.maxY < img.height
  }

  /** `p` is a cell of the region, with coordinates relative to its top-left
      corner and the colour of the image there. */
  predicate InRegion(img: Image, r: Box, p: Pixel)
    requires Inside(img, r)
  {
    p.x < r.Width() && p.y < r.Height() && p.rgba == ColourAt(img, r.minX + p.x, r.minY + p.y)
  }

  // ---- the cells in visiting order -------------------------------------------

  /** `acc` followed by the cells of image row y with column below xEnd,
      left to right. */
  function RowFrom(img: Image, r: Box, acc: seq<Pixel>, y: int, xEnd: int): seq<Pixel>
    requires Inside(img, r) && r.minY <= y <= r.maxY && r.minX <= xEnd <= r.maxX + 1
    decreases xEnd - r.minX
  {
    if xEnd == r.minX then acc
    else RowFrom(img, r, acc, y, xEnd - 1) + [Pixel(xEnd - 1 - r.minX, y - r.minY, ColourAt(img, xEnd - 1, y))]
  }

  /** The cells of the image rows of the region above yEnd, row by row. */
  function RegionUpTo(img: Image, r: Box, yEnd: int): seq<Pixel>
    requires Inside(img, r) && r.minY <= yEnd <= r.maxY + 1
    decreases yEnd - r.minY
  {
    if yEnd == r.minY then [] else RowFrom(img, r, RegionUpTo(img, r, yEnd - 1), yEnd - 1, r.maxX + 1)
  }

  /** Every cell of the region, in row-major order. */
  function RegionPixels(img: Image, r: Box): seq<Pixel>
    requires Inside(img, r)
  {
    RegionUpTo(img, r, r.maxY + 1)
  }

  lemma RowFromStep(img: Image, r: Box, acc: seq<Pixel>, y: int, x: int)
    requires Inside(img, r) && r.minY <= y <= r.maxY && r.minX <= x <= r.maxX
    ensures RowFrom(img, r, acc, y, x + 1)
      == RowFrom(img, r, acc, y, x) + [Pixel(x - r.minX, y - r.minY, Pack(PixelAt(img, x, y)))]
  {
  }

  lemma RegionUpToStep(img: Image, r: Box, y: int)
    requires Inside(img, r) && r.minY <= y <= r.maxY
    ensures RegionUpTo(img, r, y + 1) == RowFrom(img, r, RegionUpTo(img, r, y), y, r.maxX + 1)
  {
  }

  lemma {:induction false} RowFromLength(img: Image, r: Box, acc: seq<Pixel>, y: int, xEnd: int)
    requires Inside(img, r) && r.minY <= y <= r.maxY && r.minX <= xEnd <= r.maxX + 1
    ensures |RowFrom(img, r, acc, y, xEnd)| == |acc| + (xEnd - r.minX)
    decreases xEnd - r.minX
  {
    if xEnd > r.minX {
      RowFromLength(img, r, acc, y, xEnd - 1);
    }
  }

  /** Every pixel a row adds is one of its cells. */
  lemma {:induction false} RowFromCells(img: Image, r: Box, acc: seq<Pixel>, y: int, xEnd: int)
    requires Inside(img, r) && r.minY <= y <= r.maxY && r.minX <= xEnd <= r.maxX + 1
    ensures forall p :: p in RowFrom(img, r, acc, y, xEnd) ==>
      p in acc || (p.y == y - r.minY && p.x < xEnd - r.minX && InRegion(img, r, p))
    decreases xEnd - r.minX
  {
    if xEnd > r.minX {
      RowFromCells(img, r, acc, y, xEnd - 1);
    }
  }

  /** A row keeps what came before and adds each of its cells left of the
      cursor. */
  lemma {:induction false} RowFromHasCells(img: Image, r: Box, acc: seq<Pixel>, y: int, xEnd: int)
    requires Inside(img, r) && r.minY <= y <= r.maxY && r.minX <= xEnd <= r.maxX + 1
    ensures forall p :: p in acc ==> p in RowFrom(img, r, acc, y, xEnd)
    ensures forall p: Pixel :: p.y == y - r.minY && p.x < xEnd - r.minX && InRegion(img, r, p) ==> p in RowFrom(img, r, acc, y, xEnd)
    decreases xEnd - r.minX
  {
    if xEnd > r.minX {
      RowFromHasCells(img, r, acc, y, xEnd - 1);
    }
  }

  lemma {:induction false} RowFromBounds(img: Image, r: Box, acc: seq<Pixel>, y: int, xEnd: int)
    requires Inside(img, r) && r.minY <= y <= r.maxY && r.minX <= xEnd <= r.maxX + 1
    ensures forall p :: p in RowFrom(img, r, acc, y, xEnd) ==> p in acc || (p.y == y - r.minY && p.x < xEnd - r.minX)
    decreases xEnd - r.minX
  {
    if xEnd > r.minX {
      RowFromBounds(img, r, acc, y, xEnd - 1);
    }
  }

  lemma {:induction false} RegionUpToBounds(img: Image, r: Box, yEnd: int)
    requires Inside(img, r) && r.minY <= yEnd <= r.maxY + 1
    ensures forall p :: p in RegionUpTo(img, r, yEnd) ==> p.y < yEnd - r.minY
    decreases yEnd - r.minY
  {
    if yEnd > r.minY {
      RegionUpToBounds(img, r, yEnd - 1);
      RowFromBounds(img, r, RegionUpTo(img, r, yEnd - 1), yEnd - 1, r.maxX + 1);
    }
  }

  lemma {:induction false} RowFromSorted(img: Image, r: Box, acc: seq<Pixel>, y: int, xEnd: int)
    requires Inside(img, r) && r.minY <= y <= r.maxY && r.minX <= xEnd <= r.maxX + 1
    requires RowMajorSorted(acc) && forall q :: q in acc ==> q.y < y - r.minY
    ensures RowMajorSorted(RowFrom(img, r, acc, y, xEnd))
    decreases xEnd - r.minX
  {
    if xEnd > r.minX {
      var before := RowFrom(img, r, acc, y, xEnd - 1);
      RowFromSorted(img, r, acc, y, xEnd - 1);
      RowFromBounds(img, r, acc, y, xEnd - 1);
      var cell := Pixel(xEnd - 1 - r.minX, y - r.minY, ColourAt(img, xEnd - 1, y));
      assert forall i, j :: 0 <= i < |before| && 0 <= j < |[cell]| ==> RowMajorBefore(before[i], [cell][j]) by {
        forall i, j | 0 <= i < |before| && 0 <= j < |[cell]| ensures RowMajorBefore(before[i], [cell][j]) {
          assert before[i] in before;
        }
      }
      SortedConcat(before, [cell]);
    }
  }

  lemma {:induction false} RegionUpToLength(img: Image, r: Box, yEnd: int)
    requires Inside(img, r) && r.minY <= yEnd <= r.maxY + 1
    ensures |RegionUpTo(img, r, yEnd)| == r.Width() * (yEnd - r.minY)
    decreases yEnd - r.minY
  {
    if yEnd > r.minY {
      RegionUpToLength(img, r, yEnd - 1);
      RowFromLength(img, r, RegionUpTo(img, r, yEnd - 1), yEnd - 1, r.maxX + 1);
      assert r.Width() * (yEnd - r.minY) == r.Width() * (yEnd - 1 - r.minY) + r.Width();
    }
  }

  lemma {:induction false} RegionUpToCells(img: Image, r: Box, yEnd: int)
    requires Inside(img, r) && r.minY <= yEnd <= r.maxY + 1
    ensures forall p :: p in RegionUpTo(img, r, yEnd) ==> p.y < yEnd - r.minY && InRegion(img, r, p)
    decreases yEnd - r.minY
  {
    if yEnd > r.minY {
      RegionUpToCells(img, r, yEnd - 1);
      RowFromCells(img, r, RegionUpTo(img, r, yEnd - 1), yEnd - 1, r.maxX + 1);
    }
  }

  lemma {:induction false} RegionUpToHasCells(img: Image, r: Box, yEnd: int)
    requires Inside(img, r) && r.minY <= yEnd <= r.maxY + 1
    ensures forall p: Pixel :: p.y < yEnd - r.minY && InRegion(img, r, p) ==> p in RegionUpTo(img, r, yEnd)
    decreases yEnd - r.minY
  {
    if yEnd > r.minY {
      RegionUpToHasCells(img, r, yEnd - 1);
      RowFromHasCells(img, r, RegionUpTo(img, r, yEnd - 1), yEnd - 1, r.maxX + 1);
    }
  }

  lemma {:induction false} RegionUpToSorted(img: Image, r: Box, yEnd: int)
    requires Inside(img, r) && r.minY <= yEnd <= r.maxY + 1
    ensures RowMajorSorted(RegionUpTo(img, r, yEnd))
    decreases yEnd - r.minY
  {
    if yEnd > r.minY {
      var above := RegionUpTo(img, r, yEnd - 1);
      RegionUpToSorted(img, r, yEnd - 1);
      RegionUpToBounds(img, r, yEnd - 1);
      RowFromSorted(img, r, above, yEnd - 1, r.maxX + 1);

    }
  }

  /** Every pixel of the cut-out is a cell of the region. */
  lemma RegionPixelsAreCells(img: Image, r: Box)
    requires Inside(img, r)
    ensures forall p :: p in RegionPixels(img, r) ==> InRegion(img, r, p)
  {
    RegionUpToCells(img, r, r.maxY + 1);
  }

  /** Every cell of the region is in the cut-out. */
  lemma RegionCellsArePixels(img: Image, r: Box)
    requires Inside(img, r)
    ensures forall p: Pixel :: InRegion(img, r, p) ==> p in RegionPixels(img, r)
  {
    RegionUpToHasCells(img, r, r.maxY + 1);
  }

  /** A region has width * height cells. */
  lemma RegionPixelsLength(img: Image, r: Box)
    requires Inside(img, r)
    ensures |RegionPixels(img, r)| == r.Width() * r.Height()
  {
    RegionUpToLength(img, r, r.maxY + 1);
  }

  /** The region's cells: one per position of the rectangle, each with its
      position relative to the top-left corner and the image colour there,
      in strictly row-major order, width * height of them. */
  lemma RegionPixelsSpec(img: Image, r: Box)
    requires Inside(img, r)
    ensures RowMajorSorted(RegionPixels(img, r))
    ensures |RegionPixels(img, r)| == r.Width() * r.Height()
    ensures forall p :: p in RegionPixels(img, r) <==> InRegion(img, r, p)
  {
    RegionUpToSorted(img, r, r.maxY + 1);
    RegionPixelsLength(img, r);
    RegionPixelsAreCells(img, r);
    RegionCellsArePixels(img, r);
  }

  // ---- get_feature ------------------------------------------------------------

  /** What `get_feature` returns: an error when the smaller corner, and
      otherwise when the larger corner, lies outside the image; else the
      region's cells as a pattern. */
  function RegionFeature(img: Image, startX: u32, startY: u32, endX: u32, endY: u32): Result<Feature>
  {
    var r := Corners(startX, startY, endX, endY);
    if r.minX >= img.width || r.minY >= img.height then Err(StartOutsideImage)
    else if r.maxX >= img.width || r.maxY >= img.height then Err(EndOutsideImage)
    else Ok(Feature(RegionPixels(img, r)))
  }

  /** The corners may be given in any order: swapping the two points, or
      only their columns, or only their rows, gives the same result. */
  lemma RegionFeatureCornerOrder(img: Image, startX: u32, startY: u32, endX: u32, endY: u32)
    ensures RegionFeature(img, startX, startY, endX, endY) == RegionFeature(img, endX, endY, startX, startY)
    ensures RegionFeature(img, startX, startY, endX, endY) == RegionFeature(img, endX, startY, startX, endY)
    ensures RegionFeature(img, startX, startY, endX, endY) == RegionFeature(img, startX, endY, endX, startY)
  {
  }

  /** The error cases of `get_feature`, and on success the cut-out: as many
      pixels as the rectangle has cells, in row-major order, at coordinates
      relative to the top-left corner, each with the image colour there. */
  lemma RegionFeatureSpec(img: Image, startX: u32, startY: u32, endX: u32, endY: u32)
    ensures var r, res := Corners(startX, startY, endX, endY), RegionFeature(img, startX, startY, endX, endY);
      && (res == Err(StartOutsideImage) <==> r.minX >= img.width || r.minY >= img.height)
      && (res == Err(EndOutsideImage) <==>
            r.minX < img.width && r.minY < img.height && (r.maxX >= img.width || r.maxY >= img.height))
      && (res.Ok? <==> Inside(img, r))
      && (res.Ok? ==>
            && RowMajorSorted(res.value.pixels)
            && |res.value.pixels| == r.Width() * r.Height()
            && forall p :: p in res.value.pixels <==> InRegion(img, r, p))
  {
    var r := Corners(startX, startY, endX, endY);
    if Inside(img, r) {
      RegionPixelsSpec(img, r);
    }
  }

  /** `AsyncGetFeature::compute`: normalise the corners, check them, then
      visit the rectangle row by row, recording each cell relative to the
      top-left corner. */
  method GetFeature(img: Image, startX: u32, startY: u32, endX: u32, endY: u32) returns (res: Result<Feature>)
    ensures res == RegionFeature(img, startX, startY, endX, endY)
  {
    var minX, maxX := Min(startX, endX), Max(startX, endX);
    var minY, maxY := Min(startY, endY), Max(startY, endY);
    if minX >= img.width || minY >= img.height {
      return Err(StartOutsideImage);
    }
    if maxX >= img.width || maxY >= img.height {
      return Err(EndOutsideImage);
    }
    ghost var r := Box(minX, minY, maxX, maxY);
    var pixels: seq<Pixel> := [];
    var y := minY;
    while y <= maxY
      invariant minY <= y <= maxY + 1
      invariant pixels == RegionUpTo(img, r, y)
    {
      ghost var above := pixels;
      var x := minX;
      while x <= maxX
        invariant minX <= x <= maxX + 1
        invariant pixels == RowFrom(img, r, above, y, x)
      {
        var rgba := Pack(PixelAt(img, x, y));
        RowFromStep(img, r, above, y, x);
        pixels := pixels + [Pixel(x - minX, y - minY, rgba)];
        x := x + 1;
      }
      RegionUpToStep(img, r, y);
      y := y + 1;
    }
    res := Ok(Feature(pixels));
  }

  // ---- get_colour_frequencies -----------------------------------------------

  /** One more occurrence of colour c: `*entry(c).or_insert(0) += 1`. */
  function Bump(counts: map<u32, nat>, c: u32): map<u32, nat>
  {
    counts[c := if c in counts then counts[c] + 1 else 1]
  }

  /** The count of every colour among `ps`, bumped in visiting order. */
  function Tally(ps: seq<Pixel>): map<u32, nat>
  {
    if ps == [] then map[] else Bump(Tally(ps[..|ps| - 1]), ps[|ps| - 1].rgba)
  }

  /** The colours of `ps`, with multiplicity: the reference the counts are
      checked against. */
  function ColourBag(ps: seq<Pixel>): multiset<u32>
  {
    if ps == [] then multiset{} else ColourBag(ps[..|ps| - 1]) + multiset{ps[|ps| - 1].rgba}
  }

  /** The sum of all counts of a histogram. */
  ghost function MapSum(m: map<u32, nat>): nat
    decreases |m|
  {
    if m == map[] then 0
    else
      var c :| c in m;
      m[c] + MapSum(m - {c})
  }

  /** The sum does not depend on which key is taken out first. */
  lemma {:induction false} MapSumRemove(m: map<u32, nat>, c: u32)
    requires c in m
    ensures MapSum(m) == m[c] + MapSum(m - {c})
    decreases |m|
  {
    var d :| d in m && MapSum(m) == m[d] + MapSum(m - {d});
    if d != c {
      assert |m - {d}| < |m| by {
        assert m.Keys - {d} < m.Keys;
      }
      MapSumRemove(m - {d}, c);
      assert |m - {c}| < |m| by {
        assert m.Keys - {c} < m.Keys;
      }
      MapSumRemove(m - {c}, d);
      assert m - {d} - {c} == m - {c} - {d};
    }
  }

  /** One more occurrence adds one to the sum. */
  lemma MapSumBump(m: map<u32, nat>, c: u32)
    ensures MapSum(Bump(m, c)) == MapSum(m) + 1
  {
    var b := Bump(m, c);
    MapSumRemove(b, c);
    if c in m {
      MapSumRemove(m, c);
      assert b - {c} == m - {c};
    } else {
      assert b - {c} == m;
    }
  }

  lemma TallyStep(ps: seq<Pixel>, p: Pixel)
    ensures Tally(ps + [p]) == Bump(Tally(ps), p.rgba)
    ensures ColourBag(ps + [p]) == ColourBag(ps) + multiset{p.rgba}
  {
    assert (ps + [p])[..|ps|] == ps;
  }

  /** Counting one more cell of the row bumps its colour. */
  lemma TallyRowStep(img: Image, r: Box, acc: seq<Pixel>, y: int, x: int)
    requires Inside(img, r) && r.minY <= y <= r.maxY && r.minX <= x <= r.maxX
    ensures Tally(RowFrom(img, r, acc, y, x + 1)) == Bump(Tally(RowFrom(img, r, acc, y, x)), Pack(PixelAt(img, x, y)))
  {
    RowFromStep(img, r, acc, y, x);
    TallyStep(RowFrom(img, r, acc, y, x), Pixel(x - r.minX, y - r.minY, Pack(PixelAt(img, x, y))));
  }

  /** The tally holds exactly the colours that occur, each with the number
      of its occurrences. */
  lemma {:induction false} TallySpec(ps: seq<Pixel>)
    ensures forall c :: c in Tally(ps) <==> ColourBag(ps)[c] > 0
    ensures forall c :: c in Tally(ps) ==> Tally(ps)[c] == ColourBag(ps)[c]
  {
    if ps != [] {
      TallySpec(ps[..|ps| - 1]);
    }
  }

  /** The counts of the tally add up to the number of pixels. */
  lemma {:induction false} TallySum(ps: seq<Pixel>)
    ensures MapSum(Tally(ps)) == |ps|
  {
    if ps != [] {
      var init := ps[..|ps| - 1];
      TallySum(init);
      MapSumBump(Tally(init), ps[|ps| - 1].rgba);
    }
  }

  /** The pixels of `ps` that have colour c. */
  function CellsOfColour(ps: seq<Pixel>, c: u32): set<Pixel>
  {
    set p | p in ps && p.rgba == c
  }

  lemma CellsOfColourStep(ps: seq<Pixel>, q: Pixel, c: u32)
    ensures CellsOfColour(ps + [q], c) == CellsOfColour(ps, c) + if q.rgba == c then {q} else {}
  {
  }

  /** In a sequence that holds each pixel once, the occurrences of a colour
      are the pixels of that colour. */
  lemma {:induction false} ColourBagCountsPixels(ps: seq<Pixel>, c: u32)
    requires RowMajorSorted(ps)
    ensures ColourBag(ps)[c] == |CellsOfColour(ps, c)|
  {
    if ps != [] {
      var init, last := ps[..|ps| - 1], ps[|ps| - 1];
      assert ps == init + [last];
      ColourBagCountsPixels(init, c);
      CellsOfColourStep(init, last, c);
      TallyStep(init, last);
      SortedOnce(ps, last);
      assert last !in CellsOfColour(init, c) by {
        assert multiset(ps) == multiset(init) + multiset{last};
      }
    }
  }

  /** In a sequence that holds each pixel once, the tally has colour c as a
      key exactly when some pixel has that colour, and counts those pixels. */
  lemma TallyCountsPixels(ps: seq<Pixel>, c: u32)
    requires RowMajorSorted(ps)
    ensures c in Tally(ps) <==> CellsOfColour(ps, c) != {}
    ensures c in Tally(ps) ==> Tally(ps)[c] == |CellsOfColour(ps, c)|
  {
    TallySpec(ps);
    ColourBagCountsPixels(ps, c);
  }

  /** What `get_colour_frequencies` returns: an error when either corner
      lies outside the image, else the colour counts of the region. */
  function ColourFrequencies(img: Image, startX: u32, startY: u32, endX: u32, endY: u32): Result<map<u32, nat>>
  {
    var r := Corners(startX, startY, endX, endY);
    if r.minX >= img.width || r.minY >= img.height || r.maxX >= img.width || r.maxY >= img.height
    then Err(CoordinatesOutsideImage)
    else Ok(Tally(RegionPixels(img, r)))
  }

  /** A colour is a key of the region's tally exactly when some cell of
      the region has it. */
  lemma RegionColourKey(img: Image, r: Box, c: u32)
    requires Inside(img, r)
    ensures c in Tally(RegionPixels(img, r)) <==> exists p :: InRegion(img, r, p) && p.rgba == c
  {
    var ps := RegionPixels(img, r);
    RegionUpToSorted(img, r, r.maxY + 1);
    RegionPixelsAreCells(img, r);
    RegionCellsArePixels(img, r);
    TallyCountsPixels(ps, c);
    if c in Tally(ps) {
      var p :| p in CellsOfColour(ps, c);
      assert InRegion(img, r, p);
    } else {
      forall p | InRegion(img, r, p) ensures p.rgba != c {
        assert p in ps;
        assert p.rgba == c ==> p in CellsOfColour(ps, c);
      }
    }
  }

  /** The keys of the region's tally are exactly the colours present in
      the region. */
  lemma RegionColourKeys(img: Image, r: Box)
    requires Inside(img, r)
    ensures forall c :: c in Tally(RegionPixels(img, r)) <==> exists p :: InRegion(img, r, p) && p.rgba == c
  {
    forall c ensures c in Tally(RegionPixels(img, r)) <==> exists p :: InRegion(img, r, p) && p.rgba == c {
      RegionColourKey(img, r, c);
    }
  }

  /** Each colour of the region's tally is counted once per cell of that
      colour, so its count is positive. */
  lemma RegionColourCounts(img: Image, r: Box)
    requires Inside(img, r)
    ensures var counts, ps := Tally(RegionPixels(img, r)), RegionPixels(img, r);
      forall c :: c in counts ==> 0 < counts[c] == |CellsOfColour(ps, c)|
  {
    var ps := RegionPixels(img, r);
    RegionUpToSorted(img, r, r.maxY + 1);
    forall c | c in Tally(ps) ensures 0 < Tally(ps)[c] == |CellsOfColour(ps, c)| {
      TallyCountsPixels(ps, c);
    }
  }

  /** The counts of the region's tally add up to its area. */
  lemma RegionColourTotal(img: Image, r: Box)
    requires Inside(img, r)
    ensures MapSum(Tally(RegionPixels(img, r))) == r.Width() * r.Height()
  {
    RegionPixelsLength(img, r);
    TallySum(RegionPixels(img, r));
  }

  /** The error case of `get_colour_frequencies`, and on success the
      histogram: each colour present in the region appears once as a key
      with a positive count equal to the number of region cells of that
      colour, no other colour appears, and the counts sum to the area. */
  lemma ColourFrequenciesSpec(img: Image, startX: u32, startY: u32, endX: u32, endY: u32)
    ensures var r, res := Corners(startX, startY, endX, endY), ColourFrequencies(img, startX, startY, endX, endY);
      && (res.Err? <==> !Inside(img, r))
      && (res.Err? ==> res.error == CoordinatesOutsideImage)
      && (res.Ok? ==>
            && (forall c :: c in res.value <==> exists p :: InRegion(img, r, p) && p.rgba == c)
            && (forall c :: c in res.value ==>
                  0 < res.value[c] == |CellsOfColour(RegionPixels(img, r), c)|)
            && MapSum(res.value) == r.Width() * r.Height())
  {
    var r := Corners(startX, startY, endX, endY);
    if Inside(img, r) {
      assert ColourFrequencies(img, startX, startY, endX, endY) == Ok(Tally(RegionPixels(img, r)));
      RegionColourKeys(img, r);
      RegionColourCounts(img, r);
      RegionColourTotal(img, r);
    }
  }

  /** `AsyncGetColourFrequencies::compute`: normalise and check the
      corners, then visit the rectangle row by row, counting each colour. */
  method GetColourFrequencies(img: Image, startX: u32, startY: u32, endX: u32, endY: u32)
    returns (res: Result<map<u32, nat>>)
    ensures res == ColourFrequencies(img, startX, startY, endX, endY)
  {
    var minX, maxX := Min(startX, endX), Max(startX, endX);
    var minY, maxY := Min(startY, endY), Max(startY, endY);
    if minX >= img.width || minY >= img.height || maxX >= img.width || maxY >= img.height {
      return Err(CoordinatesOutsideImage);
    }
    var r := Box(minX, minY, maxX, maxY);
    var counts: map<u32, nat> := map[];
    var y := minY;
    while y <= maxY
      invariant minY <= y <= maxY + 1
      invariant counts == Tally(RegionUpTo(img, r, y))
    {
      counts := CountRow(img, r, counts, RegionUpTo(img, r, y), y);
      RegionUpToStep(img, r, y);
      y := y + 1;
    }
    res := Ok(counts);
  }

  /** One row of the counting loop of `AsyncGetColourFrequencies::compute`:
      bump the count of each cell's colour, left to right. */
  method CountRow(img: Image, r: Box, counts: map<u32, nat>, ghost above: seq<Pixel>, y: int)
    returns (bumped: map<u32, nat>)
    requires Inside(img, r) && r.minY <= y <= r.maxY && counts == Tally(above)
    ensures bumped == Tally(RowFrom(img, r, above, y, r.maxX + 1))
  {
    bumped := counts;
    var x := r.minX;
    while x <= r.maxX
      invariant r.minX <= x <= r.maxX + 1
      invariant bumped == Tally(RowFrom(img, r, above, y, x))
    {
      var rgba := Pack(PixelAt(img, x, y));
      TallyRowStep(img, r, above, y, x);
      bumped := Bump(bumped, rgba);
      x := x + 1;
    }
  }
}
