/** Fuzzy template search (`find_feature`) and the anchored match score
    (`check_feature`). A pattern is placed by its bounding box: the pattern
    pixel at (px, py) lands on (sx + px - minX, sy + py - minY) when the
    box's top-left is put at (sx, sy). */
module TemplateMatch {
  import opened Colours
  import opened Raster

  // ---- one pattern pixel at one placement ----------------------------------

  /** The mismatch test of `find_feature`: the pixel lands outside the
      image, or its colour is beyond the tolerance. */
  predicate Mismatched(img: Image, fp: Pixel, box: Box, sx: int, sy: int, accepts: ColourTest)
  {
    var ix, iy := sx + (fp.x - box.minX), sy + (fp.y - box.minY);
    !InBounds(img, ix, iy) || !accepts(fp.rgba, ColourAt(img, ix, iy))
  }

  /** The match test of `check_feature`: the pixel lands inside the image
      and its colour is within the tolerance. */
  predicate Matched(img: Image, fp: Pixel, box: Box, x: int, y: int, accepts: ColourTest)
  {
    var ix, iy := x + (fp.x - box.minX), y + (fp.y - box.minY);
    InBounds(img, ix, iy) && accepts(fp.rgba, ColourAt(img, ix, iy))
  }

  /** How many pattern pixels mismatch at placement (sx, sy). */
  function MismatchCount(img: Image, fps: seq<Pixel>, box: Box, sx: int, sy: int, accepts: ColourTest): (n: nat)
    ensures n <= |fps|
  {
    if fps == [] then 0
    else
      var last := if Mismatched(img, fps[|fps| - 1], box, sx, sy, accepts) then 1 else 0;
      MismatchCount(img, fps[..|fps| - 1], box, sx, sy, accepts) + last
  }

  /** How many pattern pixels match at placement (x, y). */
  function MatchCount(img: Image, fps: seq<Pixel>, box: Box, x: int, y: int, accepts: ColourTest): (n: nat)
    ensures n <= |fps|
  {
    if fps == [] then 0
    else
      var last := if Matched(img, fps[|fps| - 1], box, x, y, accepts) then 1 else 0;
      MatchCount(img, fps[..|fps| - 1], box, x, y, accepts) + last
  }

  /** Every pattern pixel either matches or mismatches: the two counts
      split the pattern. */
  lemma {:induction false} MatchesAndMismatchesSplit(img: Image, fps: seq<Pixel>, box: Box, x: int, y: int, accepts: ColourTest)
    ensures MatchCount(img, fps, box, x, y, accepts) + MismatchCount(img, fps, box, x, y, accepts) == |fps|
  {
    if fps != [] {
      MatchesAndMismatchesSplit(img, fps[..|fps| - 1], box, x, y, accepts);
    }
  }

  /** When every pattern pixel matches, the match count is the pattern's
      size and nothing mismatches. */
  lemma {:induction false} MatchCountAll(img: Image, fps: seq<Pixel>, box: Box, x: int, y: int, accepts: ColourTest)
    requires forall fp :: fp in fps ==> Matched(img, fp, box, x, y, accepts)
    ensures MatchCount(img, fps, box, x, y, accepts) == |fps|
    ensures MismatchCount(img, fps, box, x, y, accepts) == 0
  {
    if fps != [] {
      var init := fps[..|fps| - 1];
      assert forall fp :: fp in init ==> fp in fps;
      assert fps[|fps| - 1] in fps;
      MatchCountAll(img, init, box, x, y, accepts);
    }
    MatchesAndMismatchesSplit(img, fps, box, x, y, accepts);
  }

  /** Counting over a prefix never gives more mismatches than counting over
      the whole pattern, so stopping early once the budget is exceeded
      cannot turn a rejection into an acceptance. */
  lemma {:induction false} MismatchPrefix(img: Image, fps: seq<Pixel>, k: int, box: Box, sx: int, sy: int, accepts: ColourTest)
    requires 0 <= k <= |fps|
    ensures MismatchCount(img, fps[..k], box, sx, sy, accepts) <= MismatchCount(img, fps, box, sx, sy, accepts)
    decreases |fps|
  {
    if k < |fps| {
      var init := fps[..|fps| - 1];
      assert init[..k] == fps[..k];
      MismatchPrefix(img, init, k, box, sx, sy, accepts);
    } else {
      assert fps[..k] == fps;
    }
  }

  /** Probing the image the way the loops do (a checked read, then the
      colour test on the packed sample) decides both tests. */
  lemma ProbeDecides(img: Image, fp: Pixel, box: Box, x: int, y: int, accepts: ColourTest)
    ensures var probe := GetPixelChecked(img, x + (fp.x - box.minX), y + (fp.y - box.minY));
      && (Matched(img, fp, box, x, y, accepts) <==> probe.Some? && accepts(fp.rgba, Pack(probe.value)))
      && (Mismatched(img, fp, box, x, y, accepts) <==> probe.None? || !accepts(fp.rgba, Pack(probe.value)))
  {
  }

  lemma MatchCountStep(img: Image, fps: seq<Pixel>, k: int, box: Box, x: int, y: int, accepts: ColourTest)
    requires 0 <= k < |fps|
    ensures MatchCount(img, fps[..k + 1], box, x, y, accepts)
      == MatchCount(img, fps[..k], box, x, y, accepts) + if Matched(img, fps[k], box, x, y, accepts) then 1 else 0
    ensures MismatchCount(img, fps[..k + 1], box, x, y, accepts)
      == MismatchCount(img, fps[..k], box, x, y, accepts) + if Mismatched(img, fps[k], box, x, y, accepts) then 1 else 0
  {
    assert fps[..k + 1][..k] == fps[..k];
  }

  // ---- where a pattern may be placed --------------------------------------

  /** (x, y) is a top-left at which the non-empty pattern's bounding box
      fits inside the image: the range the sliding window visits. */
  predicate Admissible(img: Image, fps: seq<Pixel>, x: int, y: int)
  {
    fps != [] &&
    var box := BoundingBox(fps);
    0 <= x <= img.width - box.Width() && 0 <= y <= img.height - box.Height()
  }

  /** At an admissible placement every pattern pixel lands inside the
      image: the out-of-bounds branch of the search never runs. */
  lemma ProbesInBounds(img: Image, fps: seq<Pixel>, x: int, y: int)
    requires Admissible(img, fps, x, y)
    ensures forall fp :: fp in fps ==>
      InBounds(img, x + (fp.x - BoundingBox(fps).minX), y + (fp.y - BoundingBox(fps).minY))
  {
  }

  // ---- the sliding window ---------------------------------------------------

  /** The hits `found` before row sy, followed by the accepted top-lefts of
      row sy with column below xEnd, left to right. */
  function HitsRow(img: Image, fps: seq<Pixel>, box: Box, accepts: ColourTest, budget: nat,
                   found: seq<Pixel>, sy: int, xEnd: int): seq<Pixel>
    requires 0 <= sy < img.height && 0 <= xEnd <= img.width
    decreases xEnd
  {
    if xEnd == 0 then found
    else
      var sx := xEnd - 1;
      var before := HitsRow(img, fps, box, accepts, budget, found, sy, sx);
      if MismatchCount(img, fps, box, sx, sy, accepts) <= budget then before + [Pixel(sx, sy, ColourAt(img, sx, sy))]
      else before
  }

  /** The accepted top-lefts of the rows above yEnd, each row scanned from
      column 0 to width - featureWidth. */
  function HitsUpTo(img: Image, fps: seq<Pixel>, box: Box, accepts: ColourTest, budget: nat, yEnd: int): seq<Pixel>
    requires 1 <= box.Width() <= img.width && 0 <= yEnd <= img.height
    decreases yEnd
  {
    if yEnd == 0 then []
    else
      var above := HitsUpTo(img, fps, box, accepts, budget, yEnd - 1);
      HitsRow(img, fps, box, accepts, budget, above, yEnd - 1, img.width - box.Width() + 1)
  }

  /** What `find_feature` reports: nothing for an empty or oversized
      pattern, otherwise every admissible top-left whose mismatch count is
      within the budget, in row-major order. */
  function FeatureHits(img: Image, feature: Feature, accepts: ColourTest, budget: nat): seq<Pixel>
  {
    var fps := feature.pixels;
    if fps == [] then []
    else
      var box := BoundingBox(fps);
      if box.Width() > img.width || box.Height() > img.height then []
      else HitsUpTo(img, fps, box, accepts, budget, img.height - box.Height() + 1)
  }

  /** The top-left pixel a hit at (x, y) reports. */
  predicate IsHit(img: Image, fps: seq<Pixel>, accepts: ColourTest, budget: nat, p: Pixel)
  {
    Admissible(img, fps, p.x, p.y) && Accepted(img, fps, BoundingBox(fps), accepts, budget, p)
  }

  /** `p` is a top-left inside the image whose mismatch count is within the
      budget, reported with the image colour there. */
  predicate Accepted(img: Image, fps: seq<Pixel>, box: Box, accepts: ColourTest, budget: nat, p: Pixel)
  {
    InBounds(img, p.x, p.y)
    && MismatchCount(img, fps, box, p.x, p.y, accepts) <= budget
    && p.rgba == ColourAt(img, p.x, p.y)
  }

  /** One more column of the scan. */
  lemma HitsRowStep(img: Image, fps: seq<Pixel>, box: Box, accepts: ColourTest, budget: nat,
                    found: seq<Pixel>, sy: int, sx: int)
    requires 0 <= sy < img.height && 0 <= sx < img.width
    ensures HitsRow(img, fps, box, accepts, budget, found, sy, sx + 1)
      == HitsRow(img, fps, box, accepts, budget, found, sy, sx)
         + if MismatchCount(img, fps, box, sx, sy, accepts) <= budget then [Pixel(sx, sy, Pack(PixelAt(img, sx, sy)))] else []
  {
  }

  /** One more row of the scan. */
  lemma HitsUpToStep(img: Image, fps: seq<Pixel>, box: Box, accepts: ColourTest, budget: nat, sy: int)
    requires 1 <= box.Width() <= img.width && 0 <= sy < img.height
    ensures HitsUpTo(img, fps, box, accepts, budget, sy + 1)
      == HitsRow(img, fps, box, accepts, budget, HitsUpTo(img, fps, box, accepts, budget, sy), sy, img.width - box.Width() + 1)
  {
  }

  lemma {:induction false} HitsRowSpec(img: Image, fps: seq<Pixel>, box: Box, accepts: ColourTest, budget: nat,
                                      found: seq<Pixel>, sy: int, xEnd: int)
    requires 0 <= sy < img.height && 0 <= xEnd <= img.width
    requires RowMajorSorted(found) && forall q :: q in found ==> q.y < sy
    ensures RowMajorSorted(HitsRow(img, fps, box, accepts, budget, found, sy, xEnd))
    ensures forall p :: p in HitsRow(img, fps, box, accepts, budget, found, sy, xEnd) <==>
      p in found || (p.y == sy && p.x < xEnd && Accepted(img, fps, box, accepts, budget, p))
    decreases xEnd
  {
    if xEnd > 0 {
      var sx := xEnd - 1;
      var before := HitsRow(img, fps, box, accepts, budget, found, sy, sx);
      HitsRowSpec(img, fps, box, accepts, budget, found, sy, sx);
      var hit := Pixel(sx, sy, ColourAt(img, sx, sy));
      assert forall i, j :: 0 <= i < |before| && 0 <= j < |[hit]| ==> RowMajorBefore(before[i], [hit][j]) by {
        forall i, j | 0 <= i < |before| && 0 <= j < |[hit]| ensures RowMajorBefore(before[i], [hit][j]) {
          assert before[i] in before;
        }
      }
      SortedConcat(before, [hit]);
    }
  }

  lemma {:induction false} HitsUpToSpec(img: Image, fps: seq<Pixel>, box: Box, accepts: ColourTest, budget: nat, yEnd: int)
    requires 1 <= box.Width() <= img.width && 0 <= yEnd <= img.height
    ensures RowMajorSorted(HitsUpTo(img, fps, box, accepts, budget, yEnd))
    ensures forall p :: p in HitsUpTo(img, fps, box, accepts, budget, yEnd) <==>
      p.y < yEnd && p.x <= img.width - box.Width() && Accepted(img, fps, box, accepts, budget, p)
    decreases yEnd
  {
    if yEnd > 0 {
      var above := HitsUpTo(img, fps, box, accepts, budget, yEnd - 1);
      HitsUpToSpec(img, fps, box, accepts, budget, yEnd - 1);
      HitsRowSpec(img, fps, box, accepts, budget, above, yEnd - 1, img.width - box.Width() + 1);
    }
  }

  /** The search reports exactly the admissible top-lefts whose mismatch
      count is within the budget, each with the image colour at that
      top-left, in strictly row-major order. In particular an empty pattern,
      or one whose bounding box is wider or taller than the image, yields
      no hit. */
  lemma FeatureHitsSpec(img: Image, feature: Feature, accepts: ColourTest, budget: nat)
    ensures RowMajorSorted(FeatureHits(img, feature, accepts, budget))
    ensures forall p :: p in FeatureHits(img, feature, accepts, budget) <==> IsHit(img, feature.pixels, accepts, budget, p)
    ensures feature.pixels == [] ==> FeatureHits(img, feature, accepts, budget) == []
    ensures feature.pixels != [] &&
      (BoundingBox(feature.pixels).Width() > img.width || BoundingBox(feature.pixels).Height() > img.height)
      ==> FeatureHits(img, feature, accepts, budget) == []
    ensures forall p :: p in FeatureHits(img, feature, accepts, budget) ==>
      p.x + BoundingBox(feature.pixels).Width() <= img.width && p.y + BoundingBox(feature.pixels).Height() <= img.height
  {
    var fps := feature.pixels;
    if fps != [] {
      var box := BoundingBox(fps);
      if box.Width() <= img.width && box.Height() <= img.height {
        HitsUpToSpec(img, fps, box, accepts, budget, img.height - box.Height() + 1);
      }
    }
  }

  /** The inner loop of `AsyncFindFeatures::compute` at one admissible
      placement: count the pattern pixels that mismatch, stopping as soon as
      the count exceeds the budget. The verdict it hands back is the one the
      full count would give; below the budget the count itself is exact. */
  method CountMismatches(img: Image, fps: seq<Pixel>, box: Box, sx: int, sy: int, accepts: ColourTest, budget: nat)
    returns (mismatches: nat)
    requires Admissible(img, fps, sx, sy) && box == BoundingBox(fps)
    ensures mismatches <= budget <==> MismatchCount(img, fps, box, sx, sy, accepts) <= budget
    ensures mismatches <= budget ==> mismatches == MismatchCount(img, fps, box, sx, sy, accepts)
    ensures mismatches > budget ==> mismatches == budget + 1
  {
    ProbesInBounds(img, fps, sx, sy);
    mismatches := 0;
    var k := 0;
    while k < |fps|
      invariant 0 <= k <= |fps|
      invariant mismatches == MismatchCount(img, fps[..k], box, sx, sy, accepts) <= budget
    {
      var fp := fps[k];
      assert fp in fps;
      ProbeDecides(img, fp, box, sx, sy, accepts);
      MatchCountStep(img, fps, k, box, sx, sy, accepts);
      var probe := GetPixelChecked(img, sx + (fp.x - box.minX), sy + (fp.y - box.minY));
      if probe.None? {
        // the placement is admissible, so every probe lands in the image
        assert false;
      }
      if !accepts(fp.rgba, Pack(probe.value)) {
        mismatches := mismatches + 1;
        if mismatches > budget {
          MismatchPrefix(img, fps, k + 1, box, sx, sy, accepts);
          return;
        }
      }
      k := k + 1;
    }
    assert fps[..k] == fps;
  }

  /** `AsyncFindFeatures::compute`. The mismatch budget is the source's
      rounded `count * max_mismatch_percent`, and `accepts` is the colour
      test with threshold `510.0 * color_tolerance_percent` (see
      `Tolerance`). */
  method FindFeature(img: Image, feature: Feature, accepts: ColourTest, budget: nat) returns (found: seq<Pixel>)
    ensures found == FeatureHits(img, feature, accepts, budget)
  {
    found := [];
    var fps := feature.pixels;
    if fps == [] {
      return;
    }
    var box := BoundingBox(fps);
    var featureWidth, featureHeight := box.Width(), box.Height();
    if featureWidth > img.width || featureHeight > img.height {
      return;
    }
    var sy := 0;
    while sy <= img.height - featureHeight
      invariant 0 <= sy <= img.height - featureHeight + 1
      invariant found == HitsUpTo(img, fps, box, accepts, budget, sy)
    {
      found := ScanRow(img, fps, box, accepts, budget, found, sy);
      HitsUpToStep(img, fps, box, accepts, budget, sy);
      sy := sy + 1;
    }
  }

  /** One row of the sliding window of `AsyncFindFeatures::compute`: every
      admissible top-left of row sy, left to right, appended to `found`
      when its mismatches stay within the budget. */
  method ScanRow(img: Image, fps: seq<Pixel>, box: Box, accepts: ColourTest, budget: nat, found: seq<Pixel>, sy: int)
    returns (hits: seq<Pixel>)
    requires fps != [] && box == BoundingBox(fps)
    requires box.Width() <= img.width && 0 <= sy <= img.height - box.Height()
    ensures hits == HitsRow(img, fps, box, accepts, budget, found, sy, img.width - box.Width() + 1)
  {
    hits := found;
    var sx := 0;
    while sx <= img.width - box.Width()
      invariant 0 <= sx <= img.width - box.Width() + 1
      invariant hits == HitsRow(img, fps, box, accepts, budget, found, sy, sx)
    {
      var mismatches := CountMismatches(img, fps, box, sx, sy, accepts, budget);
      HitsRowStep(img, fps, box, accepts, budget, found, sy, sx);
      if mismatches <= budget {
        hits := hits + [Pixel(sx, sy, Pack(PixelAt(img, sx, sy)))];
      }
      sx := sx + 1;
    }
  }

  // ---- the anchored score ---------------------------------------------------

  /** The score `check_feature` returns as a ratio, kept as its two
      integer parts. */
  datatype Score = Score(matching: nat, total: nat)

  /** What `check_feature` computes, with the placement test done without
      overflow: an error for an empty pattern or a placement whose bounding
      box leaves the image, otherwise the matching count out of the
      pattern's size, so the ratio lies in [0, 1]. */
  function AnchoredScore(img: Image, x: u32, y: u32, feature: Feature, accepts: ColourTest): (r: Result<Score>)
    ensures r == Err(EmptyFeature) <==> feature.pixels == []
    ensures r == Err(FeatureBeyondImage) <==> feature.pixels != [] && !Admissible(img, feature.pixels, x, y)
    ensures r.Ok? ==> 0 < r.value.total == |feature.pixels| && r.value.matching <= r.value.total
    ensures r.Ok? ==> x + BoundingBox(feature.pixels).Width() <= img.width && y + BoundingBox(feature.pixels).Height() <= img.height
  {
    var fps := feature.pixels;
    if fps == [] then Err(EmptyFeature)
    else
      var box := BoundingBox(fps);
      if x + box.Width() > img.width || y + box.Height() > img.height then Err(FeatureBeyondImage)
      else Ok(Score(MatchCount(img, fps, box, x, y, accepts), |fps|))
  }

  /** `AsyncCheckFeature::compute`: count the pattern pixels that land in
      the image within tolerance. */
  method CheckFeature(img: Image, x: u32, y: u32, feature: Feature, accepts: ColourTest) returns (r: Result<Score>)
    ensures r == AnchoredScore(img, x, y, feature, accepts)
  {
    var fps := feature.pixels;
    if fps == [] {
      return Err(EmptyFeature);
    }
    var box := BoundingBox(fps);
    var featureWidth, featureHeight := box.Width(), box.Height();
    if x + featureWidth > img.width || y + featureHeight > img.height {
      return Err(FeatureBeyondImage);
    }
    var matching := 0;
    var k := 0;
    while k < |fps|
      invariant 0 <= k <= |fps|
      invariant matching == MatchCount(img, fps[..k], box, x, y, accepts)
    {
      var fp := fps[k];
      var probe := GetPixelChecked(img, x + (fp.x - box.minX), y + (fp.y - box.minY));
      ProbeDecides(img, fp, box, x, y, accepts);
      MatchCountStep(img, fps, k, box, x, y, accepts);
      if probe.Some? {
        if accepts(fp.rgba, Pack(probe.value)) {
          matching := matching + 1;
        }
      }
      k := k + 1;
    }
    assert fps[..k] == fps;
    r := Ok(Score(matching, |fps|));
  }

  /** At an admissible placement, the search's verdict and the anchored
      score agree: the search reports (x, y) exactly when the unmatched part
      of the score is within the budget. */
  lemma ScoreDecidesHit(img: Image, feature: Feature, x: u32, y: u32, accepts: ColourTest, budget: nat)
    requires Admissible(img, feature.pixels, x, y)
    ensures AnchoredScore(img, x, y, feature, accepts).Ok?
    ensures var s := AnchoredScore(img, x, y, feature, accepts).value;
      Pixel(x, y, ColourAt(img, x, y)) in FeatureHits(img, feature, accepts, budget) <==> s.total - s.matching <= budget
  {
    FeatureHitsSpec(img, feature, accepts, budget);
    MatchesAndMismatchesSplit(img, feature.pixels, BoundingBox(feature.pixels), x, y, accepts);
  }

  // ---- the placement test as written ----------------------------------------

  /** u32 addition as a release build performs it: modulo 2^32. */
  function WrappingAdd(a: int, b: int): u32
  {
    (a + b) % 0x1_0000_0000
  }

  function WrappingMatchCount(img: Image, fps: seq<Pixel>, box: Box, x: int, y: int, accepts: ColourTest): (n: nat)
    ensures n <= |fps|
  {
    if fps == [] then 0
    else
      var fp := fps[|fps| - 1];
      var ix, iy := WrappingAdd(x, fp.x - box.minX), WrappingAdd(y, fp.y - box.minY);
      WrappingMatchCount(img, fps[..|fps| - 1], box, x, y, accepts)
        + if InBounds(img, ix, iy) && accepts(fp.rgba, ColourAt(img, ix, iy)) then 1 else 0
  }

  /** `check_feature` as written: the pattern's extent `max - min + 1`, the
      test `x + feature_width > width` and the probe coordinates are u32
      sums, which wrap. */
  function AnchoredScoreWrapping(img: Image, x: u32, y: u32, feature: Feature, accepts: ColourTest): (r: Result<Score>)
    ensures r.Ok? ==> r.value.matching <= r.value.total
  {
    var fps := feature.pixels;
    if fps == [] then Err(EmptyFeature)
    else
      var box := BoundingBox(fps);
      var fw, fh := WrappingAdd(box.maxX - box.minX, 1), WrappingAdd(box.maxY - box.minY, 1);
      if WrappingAdd(x, fw) > img.width || WrappingAdd(y, fh) > img.height then Err(FeatureBeyondImage)
      else Ok(Score(WrappingMatchCount(img, fps, box, x, y, accepts), |fps|))
  }

  /** On a 1 x 1 image, a one-pixel pattern anchored at x = 4294967295 lies
      wholly outside the image, yet the wrapping test lets it through and a
      score of 0 out of 1 is returned, whatever the colour test, instead of
      the boundary error. */
  lemma WrappingCheckAcceptsOffImagePlacement(accepts: ColourTest)
    ensures var img: Image := RgbaImage(1, 1, [[Rgba(0, 0, 0, 0xFF)]]);
      var feature := Feature([Pixel(0, 0, 0xFF)]);
      && AnchoredScoreWrapping(img, 0xFFFF_FFFF, 0, feature, accepts) == Ok(Score(0, 1))
      && AnchoredScore(img, 0xFFFF_FFFF, 0, feature, accepts) == Err(FeatureBeyondImage)
  {
    var img: Image := RgbaImage(1, 1, [[Rgba(0, 0, 0, 0xFF)]]);
    var fps := [Pixel(0, 0, 0xFF)];
    SinglePixelBox();
    WrappingProbeMisses(img, fps, accepts);
    assert WrappingAdd(0xFFFF_FFFF, 1) == 0;
  }

  /** A one-pixel pattern has the one-point box. */
  lemma SinglePixelBox()
    ensures BoundingBox([Pixel(0, 0, 0xFF)]) == Box(0, 0, 0, 0)
  {
  }

  /** Anchored at x = 4294967295, the wrapped probe of a one-pixel pattern
      at the origin lands at column 4294967295, outside a 1 x 1 image, so
      nothing matches. */
  lemma WrappingProbeMisses(img: Image, fps: seq<Pixel>, accepts: ColourTest)
    requires img.width == 1 && fps == [Pixel(0, 0, 0xFF)]
    ensures WrappingMatchCount(img, fps, Box(0, 0, 0, 0), 0xFFFF_FFFF, 0, accepts) == 0
  {
    assert fps[..0] == [];
    assert WrappingAdd(0xFFFF_FFFF, 0) == 0xFFFF_FFFF;
  }

  /** A pattern with pixels at columns 0 and 4294967295 is as wide as u32
      itself, so its extent `max - min + 1` wraps to 0. */
  lemma FullWidthBox()
    ensures var box := BoundingBox([Pixel(0, 0, 0xFF), Pixel(0xFFFF_FFFF, 0, 0xFF)]);
      && box == Box(0, 0, 0xFFFF_FFFF, 0)
      && WrappingAdd(box.maxX - box.minX, 1) == 0
  {
    var fps := [Pixel(0, 0, 0xFF), Pixel(0xFFFF_FFFF, 0, 0xFF)];
    assert fps[..1] == [Pixel(0, 0, 0xFF)];
  }

  /** On a 1 x 1 image, that pattern placed at (0, 0) reaches far beyond the
      image, yet the wrapping test lets it through and both pixels are
      scored, instead of the boundary error. */
  lemma WrappingWidthAcceptsWidePattern(accepts: ColourTest)
    ensures var img: Image := RgbaImage(1, 1, [[Rgba(0, 0, 0, 0xFF)]]);
      var feature := Feature([Pixel(0, 0, 0xFF), Pixel(0xFFFF_FFFF, 0, 0xFF)]);
      var r := AnchoredScoreWrapping(img, 0, 0, feature, accepts);
      && r.Ok? && r.value.total == 2
      && AnchoredScore(img, 0, 0, feature, accepts) == Err(FeatureBeyondImage)
  {
    FullWidthBox();
  }
}
