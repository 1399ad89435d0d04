/** Cutting a region out with `get_feature` and looking for it again: the
    cut-out matches itself perfectly where it was taken. */
module Extraction {
  import opened Colours
  import opened Raster
  import opened Regions
  import opened TemplateMatch

  /** The bounding box of a region's cells is the region itself, in
      coordinates relative to its top-left corner. */
  lemma RegionBoundingBox(img: Image, r: Box)
    requires Inside(img, r)
    ensures RegionPixels(img, r) != []
    ensures BoundingBox(RegionPixels(img, r)) == Box(0, 0, r.Width() - 1, r.Height() - 1)
  {
    var ps := RegionPixels(img, r);
    RegionPixelsAreCells(img, r);
    RegionCellsArePixels(img, r);
    var b := Box(0, 0, r.Width() - 1, r.Height() - 1);
    var topLeft := Pixel(0, 0, ColourAt(img, r.minX, r.minY));
    var bottomRight := Pixel(r.maxX - r.minX, r.maxY - r.minY, ColourAt(img, r.maxX, r.maxY));
    assert InRegion(img, r, topLeft);
    assert InRegion(img, r, bottomRight);
    forall p | p in ps ensures b.minX <= p.x <= b.maxX && b.minY <= p.y <= b.maxY {
      assert InRegion(img, r, p);
    }
    BoundingBoxIs(ps, b, topLeft, topLeft, bottomRight, bottomRight);
  }

  /** A cell of the region, placed with the region's relative box at the
      region's corner, lands on the image cell it was copied from. */
  lemma CellMatchesItself(img: Image, r: Box, fp: Pixel, accepts: ColourTest)
    requires Inside(img, r) && Reflexive(accepts) && InRegion(img, r, fp)
    ensures Matched(img, fp, Box(0, 0, r.Width() - 1, r.Height() - 1), r.minX, r.minY, accepts)
  {
    assert accepts(fp.rgba, fp.rgba);
  }

  /** At the corner it was cut from, every pixel of the cut-out lands on the
      image cell it was copied from. */
  lemma RegionMatchesItself(img: Image, r: Box, accepts: ColourTest)
    requires Inside(img, r) && Reflexive(accepts)
    ensures var ps := RegionPixels(img, r);
      ps != [] && Admissible(img, ps, r.minX, r.minY)
      && MatchCount(img, ps, BoundingBox(ps), r.minX, r.minY, accepts) == |ps|
      && MismatchCount(img, ps, BoundingBox(ps), r.minX, r.minY, accepts) == 0
  {
    var ps := RegionPixels(img, r);
    var box := Box(0, 0, r.Width() - 1, r.Height() - 1);
    RegionBoundingBox(img, r);
    RegionPixelsAreCells(img, r);
    forall fp | fp in ps ensures Matched(img, fp, box, r.minX, r.minY, accepts) {
      CellMatchesItself(img, r, fp, accepts);
    }
    MatchCountAll(img, ps, box, r.minX, r.minY, accepts);
  }

  /** A feature cut out by `get_feature` scores total/total under
      `check_feature` at its own top-left corner, and `find_feature` reports
      that corner even with no mismatch allowed, for any colour test that
      accepts equal colours; the tolerance test with a non-negative
      threshold, zero included, is one. */
  lemma ExtractedFeatureIsFound(img: Image, startX: u32, startY: u32, endX: u32, endY: u32, accepts: ColourTest)
    requires RegionFeature(img, startX, startY, endX, endY).Ok? && Reflexive(accepts)
    ensures var r, f := Corners(startX, startY, endX, endY), RegionFeature(img, startX, startY, endX, endY).value;
      && AnchoredScore(img, r.minX, r.minY, f, accepts) == Ok(Score(|f.pixels|, |f.pixels|))
      && Pixel(r.minX, r.minY, ColourAt(img, r.minX, r.minY)) in FeatureHits(img, f, accepts, 0)
  {
    var r := Corners(startX, startY, endX, endY);
    var f := RegionFeature(img, startX, startY, endX, endY).value;
    assert f.pixels == RegionPixels(img, r);
    RegionMatchesItself(img, r, accepts);
    var corner := Pixel(r.minX, r.minY, ColourAt(img, r.minX, r.minY));
    assert IsHit(img, f.pixels, accepts, 0, corner);
    FeatureHitsSpec(img, f, accepts, 0);
  }

  /** The same with the source's own test at zero tolerance, under which
      only identical colours match. */
  lemma ExtractedFeatureIsFoundExactly(img: Image, startX: u32, startY: u32, endX: u32, endY: u32)
    requires RegionFeature(img, startX, startY, endX, endY).Ok?
    ensures var r, f := Corners(startX, startY, endX, endY), RegionFeature(img, startX, startY, endX, endY).value;
      && AnchoredScore(img, r.minX, r.minY, f, Tolerance(0)) == Ok(Score(|f.pixels|, |f.pixels|))
      && Pixel(r.minX, r.minY, ColourAt(img, r.minX, r.minY)) in FeatureHits(img, f, Tolerance(0), 0)
  {
    ToleranceProperties(0);
    ExtractedFeatureIsFound(img, startX, startY, endX, endY, Tolerance(0));
  }
}
