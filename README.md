# herox image engine, modelled in Dafny

This project models the image-analysis engine of herox (`src/image.rs`).
The engine works on a captured RGBA raster. It can:

- read one pixel as a packed 32-bit colour;
- find every pixel of an exact colour;
- group those pixels greedily into features;
- search the raster for a sparse pattern ("feature") with a colour tolerance and a mismatch budget;
- score a pattern anchored at one point;
- cut a rectangle out as a pattern;
- count the colours of a rectangle.

Each `compute` body that loops becomes a Dafny `method` with loop invariants. Each method is proved equal to a specification function. The properties the engine promises are then proved about those functions as lemmas.

Modules, one per file:

- `Colours` (`colour.dfy`): bytes, packing and unpacking, and the colour-distance test.
- `Raster` (`raster.dfy`): the image, pixels, features, errors, row-major order and bounding boxes.
- `ColourSearch` (`search.dfy`): `get_pixel_rgba` and `find_rgbas`.
- `Clustering` (`cluster.dfy`): `get_features_from_color`.
- `TemplateMatch` (`template.dfy`): `find_feature` and `check_feature`.
- `Regions` (`region.dfy`): `get_feature` and `get_colour_frequencies`.
- `Extraction` (`extraction.dfy`): how a cut-out feature behaves when it is searched for again.

Conventions:

- The colour tolerance of the fuzzy searches is a parameter `accepts: ColourTest`. `Colours.Tolerance(tolSq)` is the source's test: squared distance at most `tolSq`. Here `tolSq` is the largest integer whose square root does not exceed `510.0 * color_tolerance_percent`.
- The mismatch budget of `find_feature` is a `nat` parameter. It stands for the source's rounded `len * max_mismatch_percent`.

## Model

| member | source | states |
|---|---|---|
| Colours.UnpackPack | src/image.rs:158-172 | `Unpack` of `Pack` (R in bits 24-31, then G, B, A) gives back the sample's four bytes |
| Colours.PackUnpack | src/image.rs:158-172 | `Pack` of `Unpack(n)` gives back every u32 `n` |
| Colours.PackInjective | src/image.rs:158-163 | two samples `Pack` to the same number exactly when they are equal |
| Colours.SquareIsProduct | src/image.rs:178-185 | the recursive square used by the distance is d * d (`powi(2)`) |
| Colours.ZeroToleranceIsEquality | src/image.rs:174-188 | `SqDistance`, the squared `color_distance` over the four unpacked channels, is 0 exactly for equal colours, so zero tolerance is equality |
| Colours.WithinReflexive | src/image.rs:174-188 | a colour is within tolerance of itself exactly when the threshold is not negative |
| Colours.ToleranceProperties | src/image.rs:174-188 | the tolerance test accepts equal colours iff its threshold is non-negative; at threshold 0 it is equality |
| Raster.BoundingBox | src/image.rs:365-371 | the min/max box holds every pattern pixel and has width and height at least 1 |
| Raster.BoundingBoxTight | src/image.rs:365-368 | each side of the box is touched by some pattern pixel |
| Raster.BoundingBoxIs | src/image.rs:365-368 | a box that holds all pixels and has a pixel on each side is the bounding box |
| ColourSearch.GetPixelRgba | src/image.rs:207-214 | Ok exactly inside the image, with the colour unpacking to the sample there; otherwise the out-of-bounds error |
| ColourSearch.RowPositionsBounds | src/image.rs:243-252 | the matches one row of the scan keeps lie in that row, left of the cursor |
| ColourSearch.RowPositionsSorted | src/image.rs:243-252 | one row of the scan keeps its matches left to right |
| ColourSearch.RowPositionsMatches | src/image.rs:243-252 | one row of the scan keeps exactly the matching pixels left of the cursor, each with the target colour |
| ColourSearch.PositionsUpToBounds | src/image.rs:243-252 | the matches of the rows above yEnd lie above it |
| ColourSearch.PositionsUpToSorted | src/image.rs:243-252 | the matches of the rows above yEnd are in row-major order |
| ColourSearch.PositionsUpToMatches | src/image.rs:243-252 | the rows above yEnd keep exactly their matching pixels |
| ColourSearch.PositionsSpec | src/image.rs:240-255 | `Positions`, the search as a function, reports every pixel of the target colour and nothing else, strictly row-major, each once |
| ColourSearch.FindRgbas | src/image.rs:240-255 | the loop returns exactly `Positions` |
| Clustering.Insert | src/image.rs:285 | inserting into a (x, y)-sorted run keeps it sorted and adds exactly that pixel |
| Clustering.HeadPrecedesInserted | src/image.rs:285 | when a pixel goes after the head of a sorted run, the head precedes everything inserting it into the tail yields |
| Clustering.SortByKey | src/image.rs:285 | the sort yields a permutation of its input ordered by (x, y) |
| Clustering.SortedHeadsEqual | src/image.rs:285 | two (x, y)-sorted runs with the same pixels at distinct positions start with the same pixel |
| Clustering.TailsSamePixels | src/image.rs:285 | dropping the same first pixel from two runs with the same pixels leaves runs with the same pixels |
| Clustering.SortedPermutationUnique | src/image.rs:285 | two (x, y)-sorted runs with the same pixels at distinct positions are equal, so any sort by that key yields `SortByKey`'s result |
| Clustering.RowMajorDistinctKeys | src/image.rs:240-255 | the pixels of a strictly row-major scan sit at distinct positions |
| Clustering.DistinctKeysTransfer | src/image.rs:285 | a run holding the same pixels as one with distinct positions has distinct positions too |
| Clustering.AnySortSame | src/image.rs:282-285 | every (x, y)-sorted permutation of the found pixels equals `SortByKey` of them, so the library sort, stable or not, yields the reference result |
| Clustering.AnyNearSpec | src/image.rs:295-299 | `any` over a group holds iff some member lies within distance 5 |
| Clustering.FirstNear | src/image.rs:294-304 | the group found is the first one with a near member; all earlier groups have none |
| Clustering.PlaceFirstFit | src/image.rs:292-308 | `Place`, one step of the outer loop, puts the pixel into the first group with a near member and no other, or opens a new last group |
| Clustering.PlaceAddsPixel | src/image.rs:292-308 | one step adds exactly that pixel to the groups and at most one group |
| Clustering.PlaceKeepsLinked | src/image.rs:292-308 | one step keeps every group non-empty and linked |
| Clustering.ClusterFromAddsPixels | src/image.rs:292-309 | the loop over further pixels adds exactly those pixels, at most one group each |
| Clustering.ClusterFromKeepsLinked | src/image.rs:292-309 | the loop keeps every group non-empty and linked |
| Clustering.ClusterPartition | src/image.rs:290-309 | the groups `Cluster` builds partition the input (with multiplicity); no group is empty; every pixel after a group's first is near an earlier member; there are never more groups than pixels |
| Clustering.OrderDependentDistances | src/image.rs:295-299 | in the example, (0,0) is not near (1,8), but (0,0) is near (3,4) and so is (1,8) |
| Clustering.OrderDependentSteps | src/image.rs:292-308 | in the example, (0,0) opens a group, (1,8) opens a second one, and (3,4) joins the first |
| Clustering.ClusterIsOrderDependent | src/image.rs:285-309 | on the sorted pixels (0,0), (1,8), (3,4) the pass keeps two groups, although (1,8) is near (3,4) |
| Clustering.FeaturesOf | src/image.rs:311-314 | one feature per group, holding that group's pixels |
| Clustering.ColourGroupsPartition | src/image.rs:281-309 | in `ColourGroups` (find, sort, cluster), every pixel of the colour is in exactly one group, once; no other pixel is; groups are non-empty and linked; at most as many groups as matches, so none when nothing matches |
| Clustering.GroupPixels | src/image.rs:290-309 | the nested loop with `break` builds `Cluster` of the sorted pixels |
| Clustering.GetFeaturesFromColor | src/image.rs:281-317 | the method returns the features of `ColourGroups` |
| TemplateMatch.MismatchCount | src/image.rs:393-424 | the mismatches never exceed the pattern's size |
| TemplateMatch.MatchCount | src/image.rs:508-527 | the matches never exceed the pattern's size |
| TemplateMatch.MatchesAndMismatchesSplit | src/image.rs:401-423 | at a placement, matches plus mismatches is the pattern's size |
| TemplateMatch.MatchCountAll | src/image.rs:508-527 | when every pattern pixel matches, the count is the pattern's size and nothing mismatches |
| TemplateMatch.MismatchPrefix | src/image.rs:410-421 | the mismatches over a prefix are no more than over the whole pattern, so the early `break` cannot turn a rejection into an acceptance |
| TemplateMatch.ProbeDecides | src/image.rs:397-423 | the checked read and colour test decide the match and mismatch tests |
| TemplateMatch.ProbesInBounds | src/image.rs:389-399 | at every placement the window visits, every pattern pixel lands inside the image, so the `None` branch never runs |
| TemplateMatch.HitsRowSpec | src/image.rs:390-435 | one row of the window keeps the accepted top-lefts left of the cursor, sorted |
| TemplateMatch.HitsUpToSpec | src/image.rs:389-437 | the rows above yEnd keep exactly their accepted top-lefts, row-major sorted |
| TemplateMatch.FeatureHitsSpec | src/image.rs:358-440 | `FeatureHits`, the search as a function, is exactly the in-bounds top-lefts whose mismatches are within the budget, each with the image colour there, strictly row-major; an empty or oversized pattern gives [] |
| TemplateMatch.CountMismatches | src/image.rs:391-424 | the early-stopping count agrees with the full count on the verdict, and is exact when within the budget |
| TemplateMatch.ScanRow | src/image.rs:390-436 | one row of the window appends exactly the accepted top-lefts of that row, left to right |
| TemplateMatch.FindFeature | src/image.rs:358-440 | the sliding-window loops return `FeatureHits` |
| TemplateMatch.AnchoredScore | src/image.rs:482-532 | an empty pattern gives its error; a placement leaving the image gives the boundary error; otherwise matching ≤ total = pattern size > 0 |
| TemplateMatch.CheckFeature | src/image.rs:482-532 | the method returns the anchored score |
| TemplateMatch.ScoreDecidesHit | src/image.rs:426-435 | at an in-bounds placement, the search reports it iff the score's unmatched part is within the budget |
| TemplateMatch.WrappingMatchCount | src/image.rs:508-527 | with wrapping coordinates the matches still never exceed the pattern's size |
| TemplateMatch.AnchoredScoreWrapping | src/image.rs:482-532 | the as-written score, with the extent `max - min + 1`, the boundary sums and the probe sums all wrapping in u32, keeps matching ≤ total |
| TemplateMatch.FullWidthBox | src/image.rs:486-493 | a pattern with pixels at columns 0 and 4294967295 has the box (0, 0)-(4294967295, 0), and its extent wraps to 0 |
| TemplateMatch.WrappingWidthAcceptsWidePattern | src/image.rs:486-510 | on a 1 x 1 image that pattern at (0, 0) passes the wrapping test and is scored over 2 pixels, where the corrected score gives the boundary error |
| TemplateMatch.WrappingCheckAcceptsOffImagePlacement | src/image.rs:495-510 | on a 1 x 1 image, x = 4294967295 passes the wrapping placement test and scores 0/1; the corrected score reports the boundary error |
| Regions.Corners | src/image.rs:569-572 | the normalised rectangle has min ≤ max on both axes, and each bound is one of the given coordinates |
| Regions.RowFromLength | src/image.rs:587-596 | a row adds one pixel per column |
| Regions.RowFromCells | src/image.rs:587-596 | every pixel a row adds is a cell of that row, in relative coordinates with the image colour |
| Regions.RowFromHasCells | src/image.rs:587-596 | a row keeps what came before and adds each of its cells left of the cursor |
| Regions.RegionUpToLength | src/image.rs:586-597 | the rows above yEnd hold width × rows pixels |
| Regions.RegionUpToCells | src/image.rs:586-597 | every pixel of the rows above yEnd is a cell of those rows |
| Regions.RegionUpToHasCells | src/image.rs:586-597 | every cell of the rows above yEnd is among their pixels |
| Regions.RegionUpToSorted | src/image.rs:586-597 | the cells are in strictly row-major order |
| Regions.RegionPixelsAreCells | src/image.rs:584-597 | every pixel of the cut-out is a cell of the region |
| Regions.RegionCellsArePixels | src/image.rs:584-597 | every cell of the region is in the cut-out |
| Regions.RegionPixelsLength | src/image.rs:586-597 | a region has width × height cells |
| Regions.RegionPixelsSpec | src/image.rs:584-601 | the cut-out is row-major sorted, width × height long, and holds exactly the cells with relative coordinates and the image colour |
| Regions.RegionFeatureCornerOrder | src/image.rs:568-582 | swapping the corners, or only their columns or rows, gives the same result |
| Regions.RegionFeatureSpec | src/image.rs:568-602 | `RegionFeature` gives the start error exactly when the smaller corner is outside, the end error exactly when only the larger one is, and otherwise the row-major cut-out |
| Regions.GetFeature | src/image.rs:568-602 | the method returns `RegionFeature` |
| Regions.MapSumBump | src/image.rs:655 | counting one more occurrence adds one to the histogram's total |
| Regions.TallyStep | src/image.rs:655 | counting one more pixel bumps its colour and adds it to the colour multiset |
| Regions.TallySpec | src/image.rs:649-657 | the histogram's keys are exactly the colours present, each counted as often as it occurs |
| Regions.TallySum | src/image.rs:649-657 | the counts add up to the number of pixels visited |
| Regions.ColourBagCountsPixels | src/image.rs:651-657 | when each cell is visited once, a colour's occurrences are the cells of that colour |
| Regions.TallyCountsPixels | src/image.rs:651-657 | when each cell is visited once, a colour is a key iff some cell has it, and its count is the number of such cells |
| Regions.RegionColourKey | src/image.rs:651-657 | a colour is counted iff some cell of the region has it |
| Regions.RegionColourKeys | src/image.rs:649-657 | the histogram's keys are exactly the colours of the region's cells |
| Regions.RegionColourCounts | src/image.rs:649-657 | each colour's count is positive and equals the number of cells of that colour |
| Regions.RegionColourTotal | src/image.rs:649-657 | the counts sum to the region's area |
| Regions.ColourFrequenciesSpec | src/image.rs:634-665 | `ColourFrequencies` gives the coordinates error exactly when a corner is outside; otherwise one key per present colour, a positive count equal to its cells, and counts summing to the area |
| Regions.CountRow | src/image.rs:652-656 | one row of the counting loop bumps the count of each of its cells' colours |
| Regions.GetColourFrequencies | src/image.rs:634-665 | the method returns `ColourFrequencies` |
| Extraction.RegionBoundingBox | src/image.rs:365-368 | a cut-out's bounding box is (0, 0) to (width - 1, height - 1) |
| Extraction.CellMatchesItself | src/image.rs:508-527 | a cell of a cut-out, placed at the region's corner, lands on the cell it was copied from and matches it |
| Extraction.RegionMatchesItself | src/image.rs:508-527 | at its own corner a cut-out fits the image, every pixel matches, and none mismatches |
| Extraction.ExtractedFeatureIsFound | src/image.rs:568-602 | a cut-out scores total/total at its corner, and the search reports that corner with a zero budget, for any test that accepts equal colours |
| Extraction.ExtractedFeatureIsFoundExactly | src/image.rs:482-532 | the same under the zero-tolerance test |

## Left out

- The N-API task plumbing (`new`, `resolve`, async scheduling), the `Image` wrapper and its registry (`From`, `Drop`) are not modelled. Each operation takes the raster as a value.
- The raster is a sequence of rows rather than the image crate's flat buffer. `PixelAt` stands for `get_pixel`.
- Colours.Tolerance: the f64 distance and threshold are replaced by an integer bound on the squared distance. The two tests agree up to the rounding of the f64 square root. A NaN or infinite percentage is not modelled.
- The alpha-less branch of `color_distance` is not modelled. Every caller passes `true`.
- TemplateMatch.FindFeature: the budget is a `nat` parameter. The f64 rounding of `len * max_mismatch_percent` and its saturating cast to u32 are not modelled.
- TemplateMatch.FindFeature: a pattern whose bounding box spans all of u32, so that `max - min + 1` wraps to 0 (a panic in a debug build), is not modelled. Widths are unbounded integers.
- TemplateMatch.CheckFeature: the same `max - min + 1` wrap at src/image.rs:492-493 (a panic in a debug build) is not followed by the corrected score; `AnchoredScore` and `CheckFeature` compute the width unwrapped, so a pattern spanning all of u32 gets the boundary error. `TemplateMatch.AnchoredScoreWrapping` models the code as written, wrapping the extent and the sums at src/image.rs:495 and 509-510 (second Findings row).
- TemplateMatch.CheckFeature: returns the matching count and the total instead of their f64 ratio. The ratio is `matching / total`, with `total > 0`.
- TemplateMatch.CheckFeature: the `i32` type inferred for `matching_pixels_count` is not modelled. It overflows only for patterns of more than 2^31 - 1 pixels.
- Regions.GetColourFrequencies: the u32 counts are unbounded `nat`s. A count overflows only in a region of more than 2^32 - 1 cells.
- Regions.GetColourFrequencies: the result is the histogram as a map. The `HashMap` iteration order of the returned list is unspecified, so it is not modelled.
- Clustering.SortByKey: `sort_by_key` is specified by its result (sorted by (x, y), a permutation). Insertion sort is used as the reference. `Clustering.AnySortSame` shows that for the found pixels, which sit at distinct positions, every such result is the reference one, so stability does not matter.
- Clustering.Near: the `i64` arithmetic of the distance at src/image.rs:296-298 is exact while dx² + dy² ≤ i64::MAX, which always holds when both differences are below 2^31, and it is modelled on integers. Beyond that a square or their sum overflows: a debug build panics, a release build wraps (|dx| = 4294967294 with dy = 0 gives -17179869180, which counts as near). That overflow is not modelled.

## Findings

| source | as written | input that shows it | evidently intended | confidence | as-written member | corrected member |
|---|---|---|---|---|---|---|
| src/image.rs:495-510 | `check_feature` tests `self.x + feature_width > self.width` and probes `self.x + (fp.x - min_x)` in u32. Both additions wrap in a release build. | 1 x 1 image, one-pixel feature, x = 4294967295, y = 0: the test sees 0 > 1 and passes, and the probe misses, so the result is 0/1 instead of the boundary error | any placement whose bounding box leaves the image returns "extends beyond image boundaries" | not executed; in a debug build the addition panics instead | TemplateMatch.WrappingCheckAcceptsOffImagePlacement | TemplateMatch.AnchoredScore |
| src/image.rs:492-495 | `check_feature` computes `feature_width = max_feat_x - min_feat_x + 1` in u32, which wraps to 0 in a release build when the pattern spans columns 0 to 4294967295 (likewise for rows). | 1 x 1 image, pattern pixels at (0, 0) and (4294967295, 0), placed at (0, 0): the test sees 0 + 0 > 1 and 0 + 1 > 1, both false, and a score over 2 pixels is returned instead of the boundary error | a pattern wider or taller than the image returns "extends beyond image boundaries" | not executed; in a debug build the `+ 1` panics instead | TemplateMatch.WrappingWidthAcceptsWidePattern | TemplateMatch.AnchoredScore |
