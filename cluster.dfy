/** Greedy grouping of the pixels of one colour into features
    (`get_features_from_color`). The grouping is single-pass and
    order-dependent: it is not connected-component labelling, and it is
    modelled as written. */
module Clustering {
  import opened Colours
  import opened Raster
  import opened ColourSearch

  /** Two pixels are near when their squared distance is at most 5 * 5. */
  const MaxDistance: int := 5
  const MaxDistSq: int := MaxDistance * MaxDistance

  // ---- the sort by (x, y) ------------------------------------------------

  /** The order of `sort_by_key(|p| (p.x, p.y))`: by column, then by row. */
  predicate KeyLe(p: Pixel, q: Pixel)
  {
    p.x < q.x || (p.x == q.x && p.y <= q.y)
  }

  predicate KeySorted(s: seq<Pixel>)
  {
    forall i, j :: 0 <= i < j < |s| ==> KeyLe(s[i], s[j])
  }

  function Insert(p: Pixel, s: seq<Pixel>): (r: seq<Pixel>)
    requires KeySorted(s)
    ensures KeySorted(r)
    ensures multiset(r) == multiset(s) + multiset{p}
  {
    if s == [] then [p]
    else if KeyLe(p, s[0]) then [p] + s
    else
      var rest := Insert(p, s[1..]);
      assert s == [s[0]] + s[1..];
      HeadPrecedesInserted(p, s, rest);
      assert forall k :: 0 <= k < |rest| ==> rest[k] in rest;
      [s[0]] + rest
  }

  /** When `p` goes after the head of a sorted run, the head precedes
      everything the insertion into the tail yields. */
  lemma HeadPrecedesInserted(p: Pixel, s: seq<Pixel>, rest: seq<Pixel>)
    requires KeySorted(s) && s != [] && !KeyLe(p, s[0])
    requires multiset(rest) == multiset(s[1..]) + multiset{p}
    ensures forall q :: q in rest ==> KeyLe(s[0], q)
  {
    forall q | q in rest ensures KeyLe(s[0], q) {
      assert q in multiset(rest);
      if q != p {
        assert q in multiset(s[1..]);
        var k :| 0 <= k < |s[1..]| && s[1..][k] == q;
        assert s[k + 1] == q;
      }
    }
  }

  /** The library sort, given here by insertion: it yields the same pixels
      ordered by (x, y). */
  function SortByKey(s: seq<Pixel>): (r: seq<Pixel>)
    ensures KeySorted(r)
    ensures multiset(r) == multiset(s)
  {
    if s == [] then []
    else
      assert s == [s[0]] + s[1..];
      Insert(s[0], SortByKey(s[1..]))
  }

  /** No two pixels of the run share a position. */
  predicate DistinctKeys(s: seq<Pixel>)
  {
    forall i, j :: 0 <= i < j < |s| ==> s[i].x != s[j].x || s[i].y != s[j].y
  }

  /** Two runs sorted by (x, y) that hold the same pixels at distinct
      positions start with the same pixel. */
  lemma SortedHeadsEqual(a: seq<Pixel>, b: seq<Pixel>)
    requires KeySorted(a) && KeySorted(b) && multiset(a) == multiset(b)
    requires DistinctKeys(b) && a != []
    ensures b != [] && a[0] == b[0]
  {
    assert a[0] in multiset(b);
    assert b[0] in multiset(a);
    var i :| 0 <= i < |b| && b[i] == a[0];
    var j :| 0 <= j < |a| && a[j] == b[0];
    assert KeyLe(a[0], a[j]);
    if i != 0 {
      assert false;
    }
  }

  /** Removing the same first pixel from two runs holding the same pixels
      leaves runs holding the same pixels. */
  lemma TailsSamePixels(a: seq<Pixel>, b: seq<Pixel>)
    requires a != [] && b != [] && a[0] == b[0] && multiset(a) == multiset(b)
    ensures multiset(a[1..]) == multiset(b[1..])
  {
    assert a == [a[0]] + a[1..];
    assert b == [a[0]] + b[1..];
    assert multiset(a[1..]) == multiset(a) - multiset{a[0]};
  }

  /** With distinct positions there is only one run sorted by (x, y) holding
      given pixels, so any sort by that key, stable or not, yields the
      result of `SortByKey`. */
  lemma {:induction false} SortedPermutationUnique(a: seq<Pixel>, b: seq<Pixel>)
    requires KeySorted(a) && KeySorted(b) && multiset(a) == multiset(b)
    requires DistinctKeys(a) && DistinctKeys(b)
    ensures a == b
  {
    if a == [] {
      assert |multiset(b)| == 0;
    } else {
      SortedHeadsEqual(a, b);
      TailsSamePixels(a, b);
      SortedPermutationUnique(a[1..], b[1..]);
      assert a == [a[0]] + a[1..] && b == [b[0]] + b[1..];
    }
  }

  /** A strictly row-major run has distinct positions. */
  lemma RowMajorDistinctKeys(s: seq<Pixel>)
    requires RowMajorSorted(s)
    ensures DistinctKeys(s)
  {
    forall i, j | 0 <= i < j < |s| ensures s[i].x != s[j].x || s[i].y != s[j].y {
      assert RowMajorBefore(s[i], s[j]);
    }
  }

  /** A run with distinct positions holds each pixel at most once. */
  lemma {:induction false} DistinctKeysOnce(a: seq<Pixel>, q: Pixel)
    requires DistinctKeys(a)
    ensures multiset(a)[q] <= 1
  {
    if a != [] {
      assert a == [a[0]] + a[1..];
      assert DistinctKeys(a[1..]);
      DistinctKeysOnce(a[1..], q);
      if a[0] == q {
        assert q !in a[1..] by {
          forall k | 0 <= k < |a[1..]| ensures a[1..][k] != q {
            assert a[k + 1] == a[1..][k];
          }
        }
      }
    }
  }

  /** Holding the same pixels as a run with distinct positions, a run has
      distinct positions too. */
  lemma DistinctKeysTransfer(a: seq<Pixel>, b: seq<Pixel>)
    requires DistinctKeys(a) && multiset(a) == multiset(b)
    ensures DistinctKeys(b)
  {
    forall i, j | 0 <= i < j < |b| ensures b[i].x != b[j].x || b[i].y != b[j].y {
      if b[i] == b[j] {
        assert b == b[..j] + b[j..];
        assert b[i] == b[..j][i] && b[j] == b[j..][0];
        assert multiset(b)[b[i]] >= 2;
        DistinctKeysOnce(a, b[i]);
      } else {
        assert b[i] in multiset(a) && b[j] in multiset(a);
        var k :| 0 <= k < |a| && a[k] == b[i];
        var l :| 0 <= l < |a| && a[l] == b[j];
        assert k != l;
      }
    }
  }

  /** Any sort of the found pixels by (x, y), stable or not, yields
      `SortByKey`'s result: the found pixels sit at distinct positions. */
  lemma AnySortSame(img: Image, target: u32, other: seq<Pixel>)
    requires KeySorted(other) && multiset(other) == multiset(Positions(img, target))
    ensures other == SortByKey(Positions(img, target))
  {
    var found := Positions(img, target);
    PositionsSpec(img, target);
    RowMajorDistinctKeys(found);
    DistinctKeysTransfer(found, other);
    DistinctKeysTransfer(found, SortByKey(found));
    SortedPermutationUnique(other, SortByKey(found));
  }

  // ---- the grouping --------------------------------------------------------

  /** The closure given to `any`: `gp` lies within the radius of `p`. */
  predicate Near(gp: Pixel, p: Pixel)
  {
    Square(gp.x - p.x) + Square(gp.y - p.y) <= MaxDistSq
  }

  /** `group.iter().any(...)`: some member of the group is near `p`. */
  function AnyNear(group: seq<Pixel>, p: Pixel): bool
  {
    group != [] && (Near(group[0], p) || AnyNear(group[1..], p))
  }

  /** The search stops at the first near member, so it answers whether one
      exists. */
  lemma {:induction false} AnyNearSpec(group: seq<Pixel>, p: Pixel)
    ensures AnyNear(group, p) <==> exists q :: q in group && Near(q, p)
  {
    if group != [] {
      assert group == [group[0]] + group[1..];
      AnyNearSpec(group[1..], p);
    }
  }

  /** The index of the first group with a member near `p`, or the number of
      groups when there is none. */
  function FirstNear(groups: seq<seq<Pixel>>, p: Pixel): (i: nat)
    ensures i <= |groups|
    ensures i < |groups| ==> AnyNear(groups[i], p)
    ensures forall j :: 0 <= j < i ==> !AnyNear(groups[j], p)
  {
    if groups == [] then 0
    else if AnyNear(groups[0], p) then 0
    else 1 + FirstNear(groups[1..], p)
  }

  /** One step of the grouping loop: the pixel joins the first group with a
      near member, or opens a new group. */
  function Place(groups: seq<seq<Pixel>>, p: Pixel): seq<seq<Pixel>>
  {
    var i := FirstNear(groups, p);
    if i < |groups| then groups[i := groups[i] + [p]] else groups + [[p]]
  }

  /** `p` joins the first group holding a member near it and no other, or,
      when no group holds one, opens a group of its own at the end. */
  lemma PlaceFirstFit(groups: seq<seq<Pixel>>, p: Pixel)
    ensures (forall i :: 0 <= i < |groups| ==> !AnyNear(groups[i], p)) ==> Place(groups, p) == groups + [[p]]
    ensures forall i ::
      0 <= i < |groups| && AnyNear(groups[i], p) && (forall j :: 0 <= j < i ==> !AnyNear(groups[j], p))
      ==> Place(groups, p) == groups[i := groups[i] + [p]]
  {
  }

  /** The groups after the loop, started from `groups`, has processed `ps`
      in order. */
  function ClusterFrom(groups: seq<seq<Pixel>>, ps: seq<Pixel>): seq<seq<Pixel>>
    decreases |ps|
  {
    if ps == [] then groups else ClusterFrom(Place(groups, ps[0]), ps[1..])
  }

  /** The groups the loop forms from `ps`. */
  function Cluster(ps: seq<Pixel>): seq<seq<Pixel>>
  {
    ClusterFrom([], ps)
  }

  /** One pixel more: continuing from `before` over `ps[k..]` is continuing
      from the placed groups over `ps[k + 1..]`. */
  lemma ClusterFromStep(before: seq<seq<Pixel>>, after: seq<seq<Pixel>>, ps: seq<Pixel>, k: int)
    requires 0 <= k < |ps| && after == Place(before, ps[k])
    ensures ClusterFrom(before, ps[k..]) == ClusterFrom(after, ps[k + 1..])
  {
    assert ps[k..][1..] == ps[k + 1..];
  }

  /** All pixels held by the groups, with multiplicity. */
  function Members(groups: seq<seq<Pixel>>): multiset<Pixel>
  {
    if groups == [] then multiset{} else multiset(groups[0]) + Members(groups[1..])
  }

  /** Each pixel of a group after its first is near an earlier member of
      that group: a group grows only by pixels adjacent to it. */
  predicate Linked(g: seq<Pixel>)
  {
    forall k :: 0 < k < |g| ==> AnyNear(g[..k], g[k])
  }

  /** Every group is non-empty and linked. */
  predicate GroupsLinked(groups: seq<seq<Pixel>>)
  {
    forall g :: g in groups ==> |g| > 0 && Linked(g)
  }

  lemma {:induction false} MembersAppendTo(groups: seq<seq<Pixel>>, i: int, p: Pixel)
    requires 0 <= i < |groups|
    ensures Members(groups[i := groups[i] + [p]]) == Members(groups) + multiset{p}
  {
    var r := groups[i := groups[i] + [p]];
    if i == 0 {
      assert r[1..] == groups[1..];
    } else {
      assert r[1..] == groups[1..][i - 1 := groups[1..][i - 1] + [p]];
      MembersAppendTo(groups[1..], i - 1, p);
    }
  }

  lemma {:induction false} MembersAppendGroup(groups: seq<seq<Pixel>>, g: seq<Pixel>)
    ensures Members(groups + [g]) == Members(groups) + multiset(g)
  {
    if groups != [] {
      assert (groups + [g])[1..] == groups[1..] + [g];
      MembersAppendGroup(groups[1..], g);
    }
  }

  /** Placing a pixel adds exactly that pixel to the groups and at most
      one group. */
  lemma PlaceAddsPixel(groups: seq<seq<Pixel>>, p: Pixel)
    ensures Members(Place(groups, p)) == Members(groups) + multiset{p}
    ensures |Place(groups, p)| <= |groups| + 1
  {
    var i := FirstNear(groups, p);
    if i < |groups| {
      MembersAppendTo(groups, i, p);
    } else {
      MembersAppendGroup(groups, [p]);
    }
  }

  /** Placing a pixel keeps every group non-empty and linked. */
  lemma PlaceKeepsLinked(groups: seq<seq<Pixel>>, p: Pixel)
    requires GroupsLinked(groups)
    ensures GroupsLinked(Place(groups, p))
  {
    var i := FirstNear(groups, p);
    if i < |groups| {
      var g := groups[i] + [p];
      assert groups[i] in groups;
      assert Linked(g) by {
        forall k | 0 < k < |g| ensures AnyNear(g[..k], g[k]) {
          if k < |groups[i]| {
            assert g[..k] == groups[i][..k] && g[k] == groups[i][k];
          } else {
            assert g[..k] == groups[i] && g[k] == p;
          }
        }
      }
      forall h | h in Place(groups, p) ensures |h| > 0 && Linked(h) {
        var m :| 0 <= m < |Place(groups, p)| && Place(groups, p)[m] == h;
        if m != i { assert h == groups[m] && groups[m] in groups; }
      }
    }
  }

  /** Continuing from some groups, every further pixel lands in exactly one
      group, and each pixel opens at most one group. */
  lemma {:induction false} ClusterFromAddsPixels(groups: seq<seq<Pixel>>, ps: seq<Pixel>)
    ensures Members(ClusterFrom(groups, ps)) == Members(groups) + multiset(ps)
    ensures |ClusterFrom(groups, ps)| <= |groups| + |ps|
    decreases |ps|
  {
    if ps != [] {
      PlaceAddsPixel(groups, ps[0]);
      ClusterFromAddsPixels(Place(groups, ps[0]), ps[1..]);
      assert ps == [ps[0]] + ps[1..];
    }
  }

  /** Continuing from linked groups, the groups stay non-empty and
      linked. */
  lemma {:induction false} ClusterFromKeepsLinked(groups: seq<seq<Pixel>>, ps: seq<Pixel>)
    requires GroupsLinked(groups)
    ensures GroupsLinked(ClusterFrom(groups, ps))
    decreases |ps|
  {
    if ps != [] {
      PlaceKeepsLinked(groups, ps[0]);
      ClusterFromKeepsLinked(Place(groups, ps[0]), ps[1..]);
    }
  }

  /** The groups partition the processed pixels: every pixel lands in
      exactly one group as often as it was processed, no group is empty,
      every group is linked, and there are never more groups than pixels. */
  lemma ClusterPartition(ps: seq<Pixel>)
    ensures Members(Cluster(ps)) == multiset(ps)
    ensures GroupsLinked(Cluster(ps))
    ensures |Cluster(ps)| <= |ps|
  {
    ClusterFromAddsPixels([], ps);
    ClusterFromKeepsLinked([], ps);
  }

  /** The greedy pass is not connected-component labelling: on the
      column-sorted pixels (0,0), (1,8), (3,4) it keeps two groups although
      (1,8) is near (3,4), which sits in the other group. */
  lemma ClusterIsOrderDependent(c: u32)
    ensures var a, b, m := Pixel(0, 0, c), Pixel(1, 8, c), Pixel(3, 4, c);
      && KeySorted([a, b, m])
      && Cluster([a, b, m]) == [[a, m], [b]]
      && Near(b, m)
  {
    var a, b, m := Pixel(0, 0, c), Pixel(1, 8, c), Pixel(3, 4, c);
    assert [a, b, m][1..] == [b, m] && [b, m][1..] == [m] && [m][1..] == [];
    OrderDependentSteps(c);
    calc {
      Cluster([a, b, m]);
      ClusterFrom(Place([], a), [b, m]);
      ClusterFrom(Place([[a]], b), [m]);
      ClusterFrom(Place([[a], [b]], m), []);
      [[a, m], [b]];
    }
  }

  /** The distances between the three pixels of the example. */
  lemma OrderDependentDistances(c: u32)
    ensures var a, b, m := Pixel(0, 0, c), Pixel(1, 8, c), Pixel(3, 4, c);
      !Near(a, b) && Near(a, m) && Near(b, m)
  {
    SquareIsProduct(-1);
    SquareIsProduct(-8);
    SquareIsProduct(-3);
    SquareIsProduct(-4);
    SquareIsProduct(-2);
    SquareIsProduct(4);
  }

  /** The three steps of the grouping loop on the example. */
  lemma OrderDependentSteps(c: u32)
    ensures var a, b, m := Pixel(0, 0, c), Pixel(1, 8, c), Pixel(3, 4, c);
      && Place([], a) == [[a]]
      && Place([[a]], b) == [[a], [b]]
      && Place([[a], [b]], m) == [[a, m], [b]]
  {
    var a, b, m := Pixel(0, 0, c), Pixel(1, 8, c), Pixel(3, 4, c);
    OrderDependentDistances(c);
    assert !AnyNear([a], b);
    assert FirstNear([[a]], b) == 1;
    assert AnyNear([a], m);
    assert FirstNear([[a], [b]], m) == 0;
    assert [a] + [m] == [a, m];
    var placed := [[a], [b]][0 := [a, m]];
    assert |placed| == 2 && placed[0] == [a, m] && placed[1] == [b];
    assert placed == [[a, m], [b]];
  }

  /** The features of one colour, as the source builds them. */
  function FeaturesOf(groups: seq<seq<Pixel>>): (fs: seq<Feature>)
    ensures |fs| == |groups|
    ensures forall i :: 0 <= i < |groups| ==> fs[i].pixels == groups[i]
  {
    seq(|groups|, i requires 0 <= i < |groups| => Feature(groups[i]))
  }

  /** The groups `get_features_from_color` forms for one colour: the exact
      matches, sorted by (x, y), then grouped greedily. */
  function ColourGroups(img: Image, target: u32): seq<seq<Pixel>>
  {
    Cluster(SortByKey(Positions(img, target)))
  }

  /** The groups for a colour hold every pixel of that colour exactly once
      and no other pixel; no group is empty, each is linked, there are at
      most as many groups as matching pixels, and none when nothing
      matches. */
  lemma ColourGroupsPartition(img: Image, target: u32)
    ensures GroupsLinked(ColourGroups(img, target))
    ensures forall p :: Members(ColourGroups(img, target))[p] == if IsMatchAt(img, target, p) then 1 else 0
    ensures |ColourGroups(img, target)| <= |Positions(img, target)|
  {
    var found := Positions(img, target);
    ClusterPartition(SortByKey(found));
    PositionsSpec(img, target);
    forall p ensures Members(ColourGroups(img, target))[p] == if IsMatchAt(img, target, p) then 1 else 0 {
      SortedOnce(found, p);
    }
  }

  /** The grouping loop of `AsyncGetFeaturesFromColor::compute`: each
      pixel in turn joins the first group with a near member or opens a new
      group. */
  method GroupPixels(pixels: seq<Pixel>) returns (groups: seq<seq<Pixel>>)
    ensures groups == Cluster(pixels)
  {
    groups := [];
    var k := 0;
    while k < |pixels|
      invariant 0 <= k <= |pixels|
      invariant ClusterFrom(groups, pixels[k..]) == Cluster(pixels)
    {
      var pixel := pixels[k];
      ghost var before := groups;
      var foundGroup := false;
      var i := 0;
      while i < |groups|
        invariant 0 <= i <= FirstNear(before, pixel) && groups == before && !foundGroup
      {
        if AnyNear(groups[i], pixel) {
          assert i == FirstNear(before, pixel);
          groups := groups[i := groups[i] + [pixel]];
          foundGroup := true;
          break;
        }
        i := i + 1;
      }
      if !foundGroup {
        groups := groups + [[pixel]];
      }
      ClusterFromStep(before, groups, pixels, k);
      k := k + 1;
    }
    assert pixels[k..] == [];
  }

  /** `AsyncGetFeaturesFromColor::compute`: find the colour, sort by (x, y),
      group, and wrap each group as a feature. */
  method GetFeaturesFromColor(img: Image, target: u32) returns (features: seq<Feature>)
    ensures features == FeaturesOf(ColourGroups(img, target))
  {
    var found := FindRgbas(img, target);
    var pixels := SortByKey(found);
    var groups := GroupPixels(pixels);
    features := FeaturesOf(groups);
  }
}
