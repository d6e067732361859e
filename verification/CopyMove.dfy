/**
  src/fakedetector/analyzers/_image_copy_move.py: peeling geometric clusters off a list of
  correspondences around whatever RANSAC answers, region pairs, their overlap, and candidates.
 */
module CopyMove {
  import opened Wrappers
  import opened Sorting
  import opened Algebra
  import Sums

  const MIN_AFFINE_MATCHES: nat := 3

  datatype Settings = Settings(minClusterInliers: nat, minClusterInlierRatio: real, maxClusters: nat)

  /** The bounds the settings model enforces. */
  predicate ValidSettings(s: Settings) {
    && MIN_AFFINE_MATCHES <= s.minClusterInliers <= 5000
    && 0.0 < s.minClusterInlierRatio <= 1.0
    && 1 <= s.maxClusters <= 4
  }

  datatype Point = Point(x: real, y: real)

  datatype Correspondence = Correspondence(first: Point, second: Point, distance: real)

  datatype Box = Box(x: real, y: real, width: real, height: real)
  {
    function Area(): real {
      width * height
    }
  }

  datatype RegionPair = RegionPair(first: Box, second: Box)

  datatype Metrics = Metrics(clusters: nat, maxInliers: nat, maxRatio: real, capped: bool)

  // ----- overlap of boxes

  function Min(a: real, b: real): real {
    if b < a then b else a
  }

  function Max(a: real, b: real): real {
    if b > a then b else a
  }

  /** The length two intervals [x, x+w] and [u, u+v] share. */
  function Overlap(x: real, w: real, u: real, v: real): real {
    Max(0.0, Min(x + w, u + v) - Max(x, u))
  }

  function IntersectionOverUnion(a: Box, b: Box): real {
    Share(Intersection(a, b), a.Area(), b.Area())
  }

  function Intersection(a: Box, b: Box): real {
    Overlap(a.x, a.width, b.x, b.width) * Overlap(a.y, a.height, b.y, b.height)
  }

  function Share(intersection: real, areaA: real, areaB: real): real {
    var union := areaA + areaB - intersection;
    if union > 0.0 then intersection / union else 0.0
  }

  lemma ShareRange(intersection: real, areaA: real, areaB: real)
    requires 0.0 <= intersection <= areaA && intersection <= areaB && areaA > 0.0 && areaB > 0.0
    ensures 0.0 <= Share(intersection, areaA, areaB) <= 1.0
    ensures Share(intersection, areaA, areaB) == Share(intersection, areaB, areaA)
    ensures Share(areaA, areaA, areaA) == 1.0
  {
    QuotientInUnit(intersection, areaA + areaB - intersection);
    QuotientInUnit(areaA, areaA);
  }

  lemma OverlapFits(x: real, w: real, u: real, v: real)
    requires w > 0.0 && v > 0.0
    ensures 0.0 <= Overlap(x, w, u, v) <= w && Overlap(x, w, u, v) <= v
    ensures Overlap(x, w, u, v) == Overlap(u, v, x, w)
    ensures Overlap(x, w, x, w) == w
  {
  }

  predicate Proper(b: Box) {
    b.width > 0.0 && b.height > 0.0
  }

  lemma ProductMonotone(a: real, b: real, c: real, d: real)
    requires 0.0 <= a <= c && 0.0 <= b <= d
    ensures 0.0 <= a * b <= c * d
  {
    ProductNonNegative(a, b);
    ProductNonNegative(a, d - b);
    ProductNonNegative(c - a, d);
    Distribute(a, d, b);
    Distribute(d, c, a);
  }

  lemma IntersectionFits(a: Box, b: Box)
    requires Proper(a) && Proper(b)
    ensures 0.0 <= Intersection(a, b) <= a.Area() && Intersection(a, b) <= b.Area()
  {
    OverlapFits(a.x, a.width, b.x, b.width);
    OverlapFits(a.y, a.height, b.y, b.height);
    var w, h := Overlap(a.x, a.width, b.x, b.width), Overlap(a.y, a.height, b.y, b.height);
    ProductMonotone(w, h, a.width, a.height);
    ProductMonotone(w, h, b.width, b.height);
  }

  lemma IntersectionSymmetric(a: Box, b: Box)
    requires Proper(a) && Proper(b)
    ensures Intersection(a, b) == Intersection(b, a)
  {
    OverlapFits(a.x, a.width, b.x, b.width);
    OverlapFits(a.y, a.height, b.y, b.height);
  }

  lemma IntersectionSelf(a: Box)
    requires Proper(a)
    ensures Intersection(a, a) == a.Area()
  {
    OverlapFits(a.x, a.width, a.x, a.width);
    OverlapFits(a.y, a.height, a.y, a.height);
  }

  lemma AreaPositive(a: Box)
    requires Proper(a)
    ensures a.Area() > 0.0
  {
    ProductPositive(a.width, a.height);
  }

  /** The overlap measure is symmetric and in [0,1], and a region overlaps itself completely. */
  lemma OverlapRatio(a: Box, b: Box)
    requires Proper(a) && Proper(b)
    ensures IntersectionOverUnion(a, b) == IntersectionOverUnion(b, a)
    ensures 0.0 <= IntersectionOverUnion(a, b) <= 1.0
    ensures IntersectionOverUnion(a, a) == 1.0
  {
    IntersectionFits(a, b);
    IntersectionSymmetric(a, b);
    IntersectionSelf(a);
    AreaPositive(a);
    AreaPositive(b);
    ShareRange(Intersection(a, b), a.Area(), b.Area());
  }

  predicate Overlapping(a: Box, b: Box) {
    IntersectionOverUnion(a, b) >= 0.5
  }

  predicate DuplicatePair(candidate: RegionPair, existing: RegionPair) {
    || (Overlapping(candidate.first, existing.first) && Overlapping(candidate.second, existing.second))
    || (Overlapping(candidate.first, existing.second) && Overlapping(candidate.second, existing.first))
  }

  predicate ProperPair(p: RegionPair) {
    Proper(p.first) && Proper(p.second)
  }

  lemma DuplicateSymmetric(p: RegionPair, q: RegionPair)
    requires ProperPair(p) && ProperPair(q)
    ensures DuplicatePair(p, q) <==> DuplicatePair(q, p)
  {
    OverlapRatio(p.first, q.first);
    OverlapRatio(p.second, q.second);
    OverlapRatio(p.first, q.second);
    OverlapRatio(p.second, q.first);
  }

  // ----- region pairs

  function Xs(points: seq<Point>): (r: seq<real>)
    ensures |r| == |points|
  {
    seq(|points|, i requires 0 <= i < |points| => points[i].x)
  }

  function Ys(points: seq<Point>): (r: seq<real>)
    ensures |r| == |points|
  {
    seq(|points|, i requires 0 <= i < |points| => points[i].y)
  }

  function BoundingBox(points: seq<Point>): Option<Box>
    requires points != []
  {
    var x0, x1, y0, y1 := Sums.Min(Xs(points)), Sums.Max(Xs(points)), Sums.Min(Ys(points)), Sums.Max(Ys(points));
    if x1 - x0 <= 0.0 || y1 - y0 <= 0.0 then None else Some(Box(x0, y0, x1 - x0, y1 - y0))
  }

  ghost predicate Contains(b: Box, p: Point) {
    b.x <= p.x <= b.x + b.width && b.y <= p.y <= b.y + b.height
  }

  ghost predicate SameX(points: seq<Point>) {
    forall i, j :: 0 <= i < |points| && 0 <= j < |points| ==> points[i].x == points[j].x
  }

  ghost predicate SameY(points: seq<Point>) {
    forall i, j :: 0 <= i < |points| && 0 <= j < |points| ==> points[i].y == points[j].y
  }

  /** The ranges of the coordinates, and points that reach their ends. */
  lemma RangesHold(points: seq<Point>) returns (i0: nat, i1: nat, j0: nat, j1: nat)
    requires points != []
    ensures var x0, x1, y0, y1 := Sums.Min(Xs(points)), Sums.Max(Xs(points)), Sums.Min(Ys(points)), Sums.Max(Ys(points));
            && (forall i :: 0 <= i < |points| ==> x0 <= points[i].x <= x1 && y0 <= points[i].y <= y1)
            && i0 < |points| && i1 < |points| && j0 < |points| && j1 < |points|
            && points[i0].x == x0 && points[i1].x == x1 && points[j0].y == y0 && points[j1].y == y1
  {
    var xs, ys := Xs(points), Ys(points);
    Sums.MinIsLeast(xs);
    Sums.MaxIsGreatest(xs);
    Sums.MinIsLeast(ys);
    Sums.MaxIsGreatest(ys);
    i0 :| 0 <= i0 < |xs| && xs[i0] == Sums.Min(xs);
    i1 :| 0 <= i1 < |xs| && xs[i1] == Sums.Max(xs);
    j0 :| 0 <= j0 < |ys| && ys[j0] == Sums.Min(ys);
    j1 :| 0 <= j1 < |ys| && ys[j1] == Sums.Max(ys);
    assert forall i :: 0 <= i < |points| ==> points[i].x == xs[i] && points[i].y == ys[i];
  }

  lemma FlatHasNoBox(points: seq<Point>)
    requires points != []
    ensures BoundingBox(points).None? <==> SameX(points) || SameY(points)
  {
    var i0, i1, j0, j1 := RangesHold(points);
  }

  lemma BoxHoldsPoints(points: seq<Point>)
    requires points != [] && BoundingBox(points).Some?
    ensures forall i :: 0 <= i < |points| ==> Contains(BoundingBox(points).value, points[i])
  {
    var i0, i1, j0, j1 := RangesHold(points);
  }

  ghost predicate Within(b: Box, c: Box) {
    c.x <= b.x && b.x + b.width <= c.x + c.width && c.y <= b.y && b.y + b.height <= c.y + c.height
  }

  lemma BoxIsLeast(points: seq<Point>, c: Box)
    requires points != [] && BoundingBox(points).Some?
    requires forall i :: 0 <= i < |points| ==> Contains(c, points[i])
    ensures Within(BoundingBox(points).value, c)
  {
    var i0, i1, j0, j1 := RangesHold(points);
    assert Contains(c, points[i0]) && Contains(c, points[i1]) && Contains(c, points[j0]) && Contains(c, points[j1]);
  }

  /** The box is proper and holds every point, and no box that holds them all is smaller on any
      side; there is no box exactly when the points lie on one horizontal or vertical line. */
  lemma BoundingBoxTight(points: seq<Point>)
    requires points != []
    ensures BoundingBox(points).None? <==> SameX(points) || SameY(points)
    ensures BoundingBox(points).Some? ==>
              var b := BoundingBox(points).value;
              && Proper(b) && (forall i :: 0 <= i < |points| ==> Contains(b, points[i]))
              && forall c: Box :: (forall i :: 0 <= i < |points| ==> Contains(c, points[i])) ==> Within(b, c)
  {
    FlatHasNoBox(points);
    if BoundingBox(points).Some? {
      BoxHoldsPoints(points);
      forall c: Box | forall i :: 0 <= i < |points| ==> Contains(c, points[i])
        ensures Within(BoundingBox(points).value, c)
      {
        BoxIsLeast(points, c);
      }
    }
  }

  predicate BoxKeyAtMost(a: Box, b: Box) {
    if a.x != b.x then a.x < b.x
    else if a.y != b.y then a.y < b.y
    else if a.width != b.width then a.width < b.width
    else a.height <= b.height
  }

  predicate PairKeyAtMost(p: RegionPair, q: RegionPair) {
    if p.first != q.first then BoxKeyAtMost(p.first, q.first) else BoxKeyAtMost(p.second, q.second)
  }

  function Firsts(items: seq<Correspondence>): (r: seq<Point>)
    ensures |r| == |items|
  {
    seq(|items|, i requires 0 <= i < |items| => items[i].first)
  }

  function Seconds(items: seq<Correspondence>): (r: seq<Point>)
    ensures |r| == |items|
  {
    seq(|items|, i requires 0 <= i < |items| => items[i].second)
  }

  function RegionPairOf(items: seq<Correspondence>): (r: Option<RegionPair>)
    requires items != []
    ensures r.Some? ==> ProperPair(r.value) && BoxKeyAtMost(r.value.first, r.value.second)
  {
    var first, second := BoundingBox(Firsts(items)), BoundingBox(Seconds(items));
    if first.None? || second.None? then None
    else if BoxKeyAtMost(first.value, second.value) then Some(RegionPair(first.value, second.value))
    else Some(RegionPair(second.value, first.value))
  }

  ghost predicate HoldsFirsts(b: Box, items: seq<Correspondence>) {
    forall i :: 0 <= i < |items| ==> Contains(b, items[i].first)
  }

  ghost predicate HoldsSeconds(b: Box, items: seq<Correspondence>) {
    forall i :: 0 <= i < |items| ==> Contains(b, items[i].second)
  }

  /** The least box around the source points of a cluster. */
  ghost predicate LeastAroundFirsts(b: Box, items: seq<Correspondence>) {
    Proper(b) && HoldsFirsts(b, items) && forall c :: HoldsFirsts(c, items) ==> Within(b, c)
  }

  /** The least box around its target points. */
  ghost predicate LeastAroundSeconds(b: Box, items: seq<Correspondence>) {
    Proper(b) && HoldsSeconds(b, items) && forall c :: HoldsSeconds(c, items) ==> Within(b, c)
  }

  /** One region of the pair is that of the sources, the other that of the targets. */
  ghost predicate SpansCluster(p: RegionPair, items: seq<Correspondence>) {
    || (LeastAroundFirsts(p.first, items) && LeastAroundSeconds(p.second, items))
    || (LeastAroundSeconds(p.first, items) && LeastAroundFirsts(p.second, items))
  }

  lemma LeastFirsts(items: seq<Correspondence>)
    requires items != [] && BoundingBox(Firsts(items)).Some?
    ensures LeastAroundFirsts(BoundingBox(Firsts(items)).value, items)
  {
    var points, b := Firsts(items), BoundingBox(Firsts(items)).value;
    BoundingBoxTight(points);
    assert forall i :: 0 <= i < |items| ==> points[i] == items[i].first;
    forall c | HoldsFirsts(c, items)
      ensures Within(b, c)
    {
      assert forall i :: 0 <= i < |points| ==> Contains(c, points[i]);
    }
  }

  lemma LeastSeconds(items: seq<Correspondence>)
    requires items != [] && BoundingBox(Seconds(items)).Some?
    ensures LeastAroundSeconds(BoundingBox(Seconds(items)).value, items)
  {
    var points, b := Seconds(items), BoundingBox(Seconds(items)).value;
    BoundingBoxTight(points);
    assert forall i :: 0 <= i < |items| ==> points[i] == items[i].second;
    forall c | HoldsSeconds(c, items)
      ensures Within(b, c)
    {
      assert forall i :: 0 <= i < |points| ==> Contains(c, points[i]);
    }
  }

  /** A cluster has a region pair unless its source points, or its target points, lie in line with an
      axis; the pair spans both, in key order. */
  lemma RegionPairSpans(items: seq<Correspondence>)
    requires items != []
    ensures RegionPairOf(items).None? <==>
              SameX(Firsts(items)) || SameY(Firsts(items)) || SameX(Seconds(items)) || SameY(Seconds(items))
    ensures RegionPairOf(items).Some? ==> SpansCluster(RegionPairOf(items).value, items)
  {
    FlatHasNoBox(Firsts(items));
    FlatHasNoBox(Seconds(items));
    if RegionPairOf(items).Some? {
      LeastFirsts(items);
      LeastSeconds(items);
    }
  }

  // ----- splitting by a mask

  function Selected(items: seq<Correspondence>, mask: seq<bool>, keep: bool): seq<Correspondence>
    requires |items| == |mask|
  {
    if items == [] then []
    else
      var k := |items| - 1;
      Selected(items[..k], mask[..k], keep) + if mask[k] == keep then [items[k]] else []
  }

  lemma SelectedLast(items: seq<Correspondence>, mask: seq<bool>, keep: bool)
    requires |items| == |mask| && items != []
    ensures var k := |items| - 1;
            multiset(Selected(items, mask, keep))
            == multiset(Selected(items[..k], mask[..k], keep)) + if mask[k] == keep then multiset{items[k]} else multiset{}
  {
    var k := |items| - 1;
    var before := Selected(items[..k], mask[..k], keep);
    assert multiset(before + [items[k]]) == multiset(before) + multiset{items[k]};
  }

  lemma {:induction false} MaskSplits(items: seq<Correspondence>, mask: seq<bool>)
    requires |items| == |mask|
    ensures multiset(Selected(items, mask, true)) + multiset(Selected(items, mask, false)) == multiset(items)
  {
    if items == [] {
    } else {
      var k := |items| - 1;
      MaskSplits(items[..k], mask[..k]);
      SelectedLast(items, mask, true);
      SelectedLast(items, mask, false);
      DropLast(items);
    }
  }

  ghost predicate PairwiseDistinct(pairs: seq<RegionPair>) {
    && (forall i :: 0 <= i < |pairs| ==> ProperPair(pairs[i]))
    && forall i, j :: 0 <= i < |pairs| && 0 <= j < |pairs| && i != j ==> !DuplicatePair(pairs[i], pairs[j])
  }

  // ----- the loop

  /** estimateAffinePartial2D, seeded anew before every call: any function from the remaining
      correspondences to no model or a mask of their length. */
  type Ransac = r: seq<Correspondence> -> Option<seq<bool>> | MasksFit(r) witness NoModel

  predicate MaskFits(items: seq<Correspondence>, mask: Option<seq<bool>>) {
    mask.Some? ==> |mask.value| == |items|
  }

  ghost predicate MasksFit(answer: seq<Correspondence> -> Option<seq<bool>>) {
    forall items :: MaskFits(items, answer(items))
  }

  function NoModel(items: seq<Correspondence>): Option<seq<bool>> {
    None
  }

  function Answer(ransac: Ransac, items: seq<Correspondence>): (mask: Option<seq<bool>>)
    ensures MaskFits(items, mask)
  {
    ransac(items)
  }

  function Part(ransac: Ransac, left: seq<Correspondence>, inlier: bool): seq<Correspondence> {
    match Answer(ransac, left)
    case None => if inlier then [] else left
    case Some(mask) => Selected(left, mask, inlier)
  }

  /** What remains after n clusters have been peeled off. */
  function LeftAfter(ransac: Ransac, all: seq<Correspondence>, n: nat): seq<Correspondence> {
    if n == 0 then all else Part(ransac, LeftAfter(ransac, all, n - 1), false)
  }

  /** The c-th cluster. */
  function InliersAt(ransac: Ransac, all: seq<Correspondence>, c: nat): seq<Correspondence> {
    Part(ransac, LeftAfter(ransac, all, c), true)
  }

  function Ratio(inliers: nat, total: nat): real {
    if total == 0 then 0.0 else inliers as real / total as real
  }

  function RatioAt(ransac: Ransac, all: seq<Correspondence>, c: nat): real {
    Ratio(|InliersAt(ransac, all, c)|, |LeftAfter(ransac, all, c)|)
  }

  function InliersCounted(ransac: Ransac, all: seq<Correspondence>): nat -> real {
    (c: nat) => |InliersAt(ransac, all, c)| as real
  }

  function Ratios(ransac: Ransac, all: seq<Correspondence>): nat -> real {
    (c: nat) => RatioAt(ransac, all, c)
  }

  /** The running maximum of the first n values, from 0. */
  function Highest(f: nat -> real, n: nat): real {
    if n == 0 then 0.0 else Max(Highest(f, n - 1), f(n - 1))
  }

  /** A cluster large enough, absolutely and relative to what was left, that spans two regions. */
  predicate Qualifies(inliers: seq<Correspondence>, ratio: real, s: Settings) {
    && |inliers| >= s.minClusterInliers && ratio >= s.minClusterInlierRatio
    && inliers != [] && RegionPairOf(inliers).Some?
  }

  predicate DuplicatesOne(p: RegionPair, accepted: seq<RegionPair>) {
    exists i :: 0 <= i < |accepted| && DuplicatePair(p, accepted[i])
  }

  /** What a cluster puts up for acceptance. */
  function Offer(inliers: seq<Correspondence>, ratio: real, s: Settings): (r: Option<RegionPair>)
    ensures r.Some? ==> ProperPair(r.value)
  {
    if Qualifies(inliers, ratio, s) then RegionPairOf(inliers) else None
  }

  function Offers(ransac: Ransac, all: seq<Correspondence>, s: Settings): nat -> Option<RegionPair> {
    (c: nat) => Offer(InliersAt(ransac, all, c), RatioAt(ransac, all, c), s)
  }

  /** Accepts what is offered unless an accepted pair already covers it. */
  function Consider(accepted: seq<RegionPair>, offer: Option<RegionPair>): seq<RegionPair> {
    if offer.Some? && !DuplicatesOne(offer.value, accepted) then accepted + [offer.value] else accepted
  }

  function Accepted(offers: nat -> Option<RegionPair>, n: nat): seq<RegionPair> {
    if n == 0 then [] else Consider(Accepted(offers, n - 1), offers(n - 1))
  }

  function Enough(s: Settings): nat {
    if s.minClusterInliers < MIN_AFFINE_MATCHES then MIN_AFFINE_MATCHES else s.minClusterInliers
  }

  /** Whether another cluster is peeled off after n: RANSAC must still answer with a cluster that
      reaches the affine minimum. */
  predicate Continues(ransac: Ransac, left: seq<Correspondence>, s: Settings) {
    |left| >= Enough(s) && |Part(ransac, left, true)| >= MIN_AFFINE_MATCHES
  }

  function Continuing(ransac: Ransac, all: seq<Correspondence>, s: Settings): nat -> bool {
    (n: nat) => Continues(ransac, LeftAfter(ransac, all, n), s)
  }

  predicate AllBelow(holds: nat -> bool, n: nat) {
    n == 0 || (AllBelow(holds, n - 1) && holds(n - 1))
  }

  /** n is the first attempt that fails, or the number of attempts allowed. */
  predicate StopsAt(holds: nat -> bool, n: nat, limit: nat) {
    AllBelow(holds, n) && n <= limit && (n == limit || !holds(n))
  }

  /** The cap is reported when the last attempt was used up and enough was left for another. */
  predicate Capped(left: seq<Correspondence>, s: Settings, n: nat) {
    |left| >= Enough(s) && n + 1 >= s.maxClusters
  }

  /** One fit: whether it gives a cluster, and the split of the correspondences by its mask. */
  method FitCluster(ransac: Ransac, remaining: seq<Correspondence>)
    returns (enough: bool, inliers: seq<Correspondence>, rest: seq<Correspondence>)
    ensures inliers == Part(ransac, remaining, true) && rest == Part(ransac, remaining, false)
    ensures enough <==> |inliers| >= MIN_AFFINE_MATCHES
  {
    var mask := Answer(ransac, remaining);
    if mask.None? {
      return false, [], remaining;
    }
    inliers := Selected(remaining, mask.value, true);
    rest := Selected(remaining, mask.value, false);
    enough := |inliers| >= MIN_AFFINE_MATCHES;
  }

  /** The local variables of the loop. */
  datatype Peeling = Peeling(remaining: seq<Correspondence>, accepted: seq<RegionPair>, maxInliers: nat, maxRatio: real)

  /** What they hold after n clusters. */
  ghost predicate Reached(ransac: Ransac, all: seq<Correspondence>, s: Settings, n: nat, p: Peeling) {
    && p.remaining == LeftAfter(ransac, all, n)
    && p.accepted == Accepted(Offers(ransac, all, s), n)
    && p.maxInliers as real == Highest(InliersCounted(ransac, all), n)
    && p.maxRatio == Highest(Ratios(ransac, all), n)
  }

  /** The body of the loop, for the n-th cluster: nothing when the fit gives none. */
  method PeelCluster(ransac: Ransac, s: Settings, p: Peeling, ghost all: seq<Correspondence>, ghost n: nat)
    returns (next: Option<Peeling>)
    requires Reached(ransac, all, s, n, p) && |p.remaining| >= Enough(s)
    ensures next.Some? <==> Continuing(ransac, all, s)(n)
    ensures next.Some? ==> Reached(ransac, all, s, n + 1, next.value)
  {
    var enough, inliers, rest := FitCluster(ransac, p.remaining);
    if !enough {
      return None;
    }
    var ratio := Ratio(|inliers|, |p.remaining|);
    var accepted := Consider(p.accepted, Offer(inliers, ratio, s));
    next := Some(Peeling(rest, accepted, if |inliers| > p.maxInliers then |inliers| else p.maxInliers, Max(p.maxRatio, ratio)));
  }

  method Peel(correspondences: seq<Correspondence>, s: Settings, ransac: Ransac)
    returns (accepted: seq<RegionPair>, metrics: Metrics)
    requires ValidSettings(s)
    ensures StopsAt(Continuing(ransac, correspondences, s), metrics.clusters, s.maxClusters)
    ensures metrics.capped == Capped(LeftAfter(ransac, correspondences, metrics.clusters), s, metrics.clusters)
    ensures metrics.maxInliers as real == Highest(InliersCounted(ransac, correspondences), metrics.clusters)
    ensures metrics.maxRatio == Highest(Ratios(ransac, correspondences), metrics.clusters)
    ensures accepted == Sort(Accepted(Offers(ransac, correspondences, s), metrics.clusters), PairKeyAtMost)
    ensures forall p :: p in accepted ==> exists c: nat :: c < metrics.clusters && FromCluster(p, ransac, correspondences, s, c)
  {
    ghost var continuing := Continuing(ransac, correspondences, s);
    var p := Peeling(correspondences, [], 0, 0.0);
    var geometric: nat, attempts: nat := 0, 0;
    while |p.remaining| >= Enough(s) && attempts < s.maxClusters
      invariant attempts == geometric <= s.maxClusters
      invariant AllBelow(continuing, geometric) && Reached(ransac, correspondences, s, geometric, p)
      decreases s.maxClusters - attempts
    {
      attempts := attempts + 1;
      var next := PeelCluster(ransac, s, p, correspondences, geometric);
      if next.None? {
        break;
      }
      geometric, p := geometric + 1, next.value;
    }
    metrics := Metrics(geometric, p.maxInliers, p.maxRatio, attempts >= s.maxClusters && |p.remaining| >= Enough(s));
    accepted := Sort(p.accepted, PairKeyAtMost);
    ReturnedSpan(ransac, correspondences, s, geometric);
  }

  /** p comes from cluster c, which is large enough, absolutely and relative to what was left, and
      spans its two regions. */
  ghost predicate FromCluster(p: RegionPair, ransac: Ransac, all: seq<Correspondence>, s: Settings, c: nat) {
    IsFrom(p, InliersAt(ransac, all, c), |LeftAfter(ransac, all, c)|, s)
  }

  ghost predicate IsFrom(p: RegionPair, inliers: seq<Correspondence>, left: nat, s: Settings) {
    LargeShare(|inliers|, left, s) && SpansCluster(p, inliers)
  }

  ghost predicate LargeShare(inliers: nat, left: nat, s: Settings) {
    inliers >= s.minClusterInliers && inliers as real >= s.minClusterInlierRatio * left as real
  }

  lemma ReturnedSpan(ransac: Ransac, all: seq<Correspondence>, s: Settings, n: nat)
    requires ValidSettings(s)
    ensures forall p :: p in Sort(Accepted(Offers(ransac, all, s), n), PairKeyAtMost) ==>
              exists c: nat :: c < n && FromCluster(p, ransac, all, s, c)
  {
    var offers := Offers(ransac, all, s);
    SortPermutes(Accepted(offers, n), PairKeyAtMost);
    forall p | p in Accepted(offers, n)
      ensures exists c: nat :: c < n && FromCluster(p, ransac, all, s, c)
    {
      var c := AcceptedWereOffered(offers, n, p);
      OfferedExactly(ransac, all, s, c);
    }
  }

  /** Large enough, absolutely and relative to what was left, and not flat on either side. */
  ghost predicate OffersPair(inliers: seq<Correspondence>, left: nat, s: Settings) {
    && LargeShare(|inliers|, left, s)
    && !SameX(Firsts(inliers)) && !SameY(Firsts(inliers)) && !SameX(Seconds(inliers)) && !SameY(Seconds(inliers))
  }

  lemma OfferExactly(inliers: seq<Correspondence>, left: nat, s: Settings)
    requires ValidSettings(s) && |inliers| <= left
    ensures Offer(inliers, Ratio(|inliers|, left), s).Some? <==> OffersPair(inliers, left, s)
    ensures OffersPair(inliers, left, s) ==> SpansCluster(Offer(inliers, Ratio(|inliers|, left), s).value, inliers)
  {
    ReachesShare(|inliers|, left, s);
    if inliers != [] {
      RegionPairSpans(inliers);
    }
  }

  lemma ReachesShare(inliers: nat, left: nat, s: Settings)
    requires ValidSettings(s) && inliers <= left
    ensures LargeShare(inliers, left, s) <==> inliers >= s.minClusterInliers && Ratio(inliers, left) >= s.minClusterInlierRatio
  {
    if inliers >= s.minClusterInliers {
      RatioReaches(inliers, left, s.minClusterInlierRatio);
    }
  }

  /** Exactly when a cluster offers a region pair, and what it offers. */
  lemma OfferedExactly(ransac: Ransac, all: seq<Correspondence>, s: Settings, c: nat)
    requires ValidSettings(s)
    ensures Offers(ransac, all, s)(c).Some? <==> OffersPair(InliersAt(ransac, all, c), |LeftAfter(ransac, all, c)|, s)
    ensures Offers(ransac, all, s)(c).Some? ==> FromCluster(Offers(ransac, all, s)(c).value, ransac, all, s, c)
  {
    var inliers, left := InliersAt(ransac, all, c), LeftAfter(ransac, all, c);
    PartsSplit(ransac, left);
    OfferIsFrom(inliers, |left|, s);
  }

  lemma OfferIsFrom(inliers: seq<Correspondence>, left: nat, s: Settings)
    requires ValidSettings(s) && |inliers| <= left
    ensures var offer := Offer(inliers, Ratio(|inliers|, left), s);
            (offer.Some? <==> OffersPair(inliers, left, s)) && (offer.Some? ==> IsFrom(offer.value, inliers, left, s))
  {
    OfferExactly(inliers, left, s);
  }

  lemma RatioReaches(inliers: nat, total: nat, bound: real)
    requires 0 < inliers <= total
    ensures Ratio(inliers, total) >= bound <==> inliers as real >= bound * total as real
  {
    var q, n := Ratio(inliers, total), total as real;
    assert q * n == inliers as real;
    if q >= bound {
      ProductNonNegative(q - bound, n);
    } else {
      ProductPositive(bound - q, n);
    }
  }

  // ----- what the loop promises, for every RANSAC

  ghost predicate OffersProper(offers: nat -> Option<RegionPair>) {
    forall c: nat :: offers(c).Some? ==> ProperPair(offers(c).value)
  }

  lemma {:induction false} AcceptedDistinct(offers: nat -> Option<RegionPair>, n: nat)
    requires OffersProper(offers)
    ensures PairwiseDistinct(Accepted(offers, n)) && |Accepted(offers, n)| <= n
  {
    if n == 0 {
    } else {
      AcceptedDistinct(offers, n - 1);
      ConsiderKeepsDistinct(Accepted(offers, n - 1), offers(n - 1));
    }
  }

  lemma ConsiderKeepsDistinct(accepted: seq<RegionPair>, offer: Option<RegionPair>)
    requires PairwiseDistinct(accepted) && (offer.Some? ==> ProperPair(offer.value))
    ensures PairwiseDistinct(Consider(accepted, offer)) && |Consider(accepted, offer)| <= |accepted| + 1
  {
    if offer.Some? && !DuplicatesOne(offer.value, accepted) {
      AcceptOne(accepted, offer.value);
    }
  }

  /** At most max_clusters region pairs, hence at most the catalog's eight candidates, pairwise
      non-duplicate and in key order. */
  lemma AcceptedPairs(ransac: Ransac, all: seq<Correspondence>, s: Settings, n: nat)
    requires ValidSettings(s) && n <= s.maxClusters
    ensures var r := Sort(Accepted(Offers(ransac, all, s), n), PairKeyAtMost);
            PairwiseDistinct(r) && Sorted(r, PairKeyAtMost) && |r| <= s.maxClusters && 2 * |r| <= 8
  {
    var accepted := Accepted(Offers(ransac, all, s), n);
    AcceptedDistinct(Offers(ransac, all, s), n);
    SortKeepsApart(accepted);
    SortSorted(accepted, PairKeyAtMost);
  }

  /** Every accepted pair was offered by one of the clusters. */
  lemma {:induction false} AcceptedWereOffered(offers: nat -> Option<RegionPair>, n: nat, p: RegionPair) returns (c: nat)
    requires p in Accepted(offers, n)
    ensures c < n && offers(c) == Some(p)
  {
    if p in Accepted(offers, n - 1) {
      c := AcceptedWereOffered(offers, n - 1, p);
    } else {
      c := n - 1;
    }
  }

  /** Every offered pair is accepted or duplicates one that is. */
  lemma {:induction false} AcceptedRepresents(offers: nat -> Option<RegionPair>, n: nat, c: nat)
    requires OffersProper(offers) && c < n && offers(c).Some?
    ensures DuplicatesOne(offers(c).value, Accepted(offers, n))
  {
    if c == n - 1 {
    } else {
      AcceptedRepresents(offers, n - 1, c);
    }
    ConsiderCovers(Accepted(offers, n - 1), offers(n - 1), offers(c).value);
  }

  lemma ConsiderCovers(before: seq<RegionPair>, offer: Option<RegionPair>, p: RegionPair)
    requires DuplicatesOne(p, before) || (offer == Some(p) && ProperPair(p))
    ensures DuplicatesOne(p, Consider(before, offer))
  {
    var after := Consider(before, offer);
    if DuplicatesOne(p, before) {
      var i :| 0 <= i < |before| && DuplicatePair(p, before[i]);
      assert after[i] == before[i];
    } else {
      SelfDuplicate(p);
      assert after[|before|] == p;
    }
  }

  lemma SelfDuplicate(p: RegionPair)
    requires ProperPair(p)
    ensures DuplicatePair(p, p)
  {
    OverlapRatio(p.first, p.first);
    OverlapRatio(p.second, p.second);
  }

  lemma RatioInUnit(inliers: nat, total: nat)
    requires inliers <= total
    ensures 0.0 <= Ratio(inliers, total) <= 1.0
  {
    if total > 0 {
      QuotientInUnit(inliers as real, total as real);
    }
  }

  lemma SizesSplit<T>(a: seq<T>, b: seq<T>, whole: seq<T>)
    requires multiset(a) + multiset(b) == multiset(whole)
    ensures |a| + |b| == |whole|
  {
    assert |multiset(a)| == |a| && |multiset(b)| == |b| && |multiset(whole)| == |whole|;
  }

  lemma PartsSplit(ransac: Ransac, left: seq<Correspondence>)
    ensures multiset(Part(ransac, left, true)) + multiset(Part(ransac, left, false)) == multiset(left)
    ensures |Part(ransac, left, true)| + |Part(ransac, left, false)| == |left|
  {
    if Answer(ransac, left).Some? {
      MaskSplits(left, Answer(ransac, left).value);
    }
    SizesSplit(Part(ransac, left, true), Part(ransac, left, false), left);
  }

  lemma {:induction false} HighestBounds(f: nat -> real, n: nat, c: nat)
    requires c < n
    ensures f(c) <= Highest(f, n)
  {
    if c == n - 1 {
    } else {
      HighestBounds(f, n - 1, c);
    }
  }

  lemma {:induction false} HighestAtMost(f: nat -> real, n: nat, bound: real)
    requires bound >= 0.0 && forall c: nat :: f(c) <= bound
    ensures 0.0 <= Highest(f, n) <= bound
  {
    if n == 0 {
    } else {
      HighestAtMost(f, n - 1, bound);
    }
  }

  /** The reported ratio is a proportion, and the reported maxima bound every cluster. */
  lemma MaximaBound(ransac: Ransac, all: seq<Correspondence>, n: nat)
    ensures 0.0 <= Highest(Ratios(ransac, all), n) <= 1.0
    ensures 0.0 <= Highest(InliersCounted(ransac, all), n) <= |all| as real
    ensures forall c :: 0 <= c < n ==> RatioAt(ransac, all, c) <= Highest(Ratios(ransac, all), n)
    ensures forall c :: 0 <= c < n ==> |InliersAt(ransac, all, c)| as real <= Highest(InliersCounted(ransac, all), n)
  {
    var ratios, counts := Ratios(ransac, all), InliersCounted(ransac, all);
    forall c: nat
      ensures ratios(c) <= 1.0 && counts(c) <= |all| as real
    {
      RatioAtInUnit(ransac, all, c);
      ClusterFits(ransac, all, c);
    }
    HighestAtMost(ratios, n, 1.0);
    HighestAtMost(counts, n, |all| as real);
    forall c: nat | c < n
      ensures ratios(c) <= Highest(ratios, n) && counts(c) <= Highest(counts, n)
    {
      HighestBounds(ratios, n, c);
      HighestBounds(counts, n, c);
    }
  }

  lemma RatioAtInUnit(ransac: Ransac, all: seq<Correspondence>, c: nat)
    ensures 0.0 <= RatioAt(ransac, all, c) <= 1.0
  {
    PartsSplit(ransac, LeftAfter(ransac, all, c));
    RatioInUnit(|InliersAt(ransac, all, c)|, |LeftAfter(ransac, all, c)|);
  }

  lemma ClusterFits(ransac: Ransac, all: seq<Correspondence>, c: nat)
    ensures |InliersAt(ransac, all, c)| <= |all|
  {
    PartsSplit(ransac, LeftAfter(ransac, all, c));
    LeftShrinks(ransac, all, c);
  }

  lemma {:induction false} LeftShrinks(ransac: Ransac, all: seq<Correspondence>, n: nat)
    ensures |LeftAfter(ransac, all, n)| <= |all|
  {
    if n == 0 {
    } else {
      LeftShrinks(ransac, all, n - 1);
      PartsSplit(ransac, LeftAfter(ransac, all, n - 1));
    }
  }

  function InlierBags(ransac: Ransac, all: seq<Correspondence>): nat -> multiset<Correspondence> {
    (c: nat) => multiset(InliersAt(ransac, all, c))
  }

  function LeftBags(ransac: Ransac, all: seq<Correspondence>): nat -> multiset<Correspondence> {
    (n: nat) => multiset(LeftAfter(ransac, all, n))
  }

  function Union(bags: nat -> multiset<Correspondence>, n: nat): multiset<Correspondence> {
    if n == 0 then multiset{} else Union(bags, n - 1) + bags(n - 1)
  }

  lemma {:induction false} Telescope(taken: nat -> multiset<Correspondence>, left: nat -> multiset<Correspondence>, n: nat)
    requires forall c: nat :: taken(c) + left(c + 1) == left(c)
    ensures Union(taken, n) + left(n) == left(0)
  {
    if n == 0 {
    } else {
      Telescope(taken, left, n - 1);
      assert taken(n - 1) + left(n - 1 + 1) == left(n - 1);
    }
  }

  /** Conservation: every correspondence ends in exactly one inlier set or in the remainder. */
  lemma PeelingConserves(ransac: Ransac, all: seq<Correspondence>, n: nat)
    ensures Union(InlierBags(ransac, all), n) + multiset(LeftAfter(ransac, all, n)) == multiset(all)
  {
    forall c: nat
      ensures InlierBags(ransac, all)(c) + LeftBags(ransac, all)(c + 1) == LeftBags(ransac, all)(c)
    {
      PartsSplit(ransac, LeftAfter(ransac, all, c));
    }
    Telescope(InlierBags(ransac, all), LeftBags(ransac, all), n);
  }

  /** Testing the newcomer against the accepted ones is enough, because duplication is symmetric. */
  lemma AcceptOne(accepted: seq<RegionPair>, p: RegionPair)
    requires PairwiseDistinct(accepted) && ProperPair(p)
    requires forall i :: 0 <= i < |accepted| ==> !DuplicatePair(p, accepted[i])
    ensures PairwiseDistinct(accepted + [p])
  {
    forall i | 0 <= i < |accepted|
      ensures !DuplicatePair(accepted[i], p)
    {
      DuplicateSymmetric(p, accepted[i]);
    }
  }

  ghost predicate Apart(p: RegionPair, pairs: seq<RegionPair>) {
    forall q :: q in pairs ==> !DuplicatePair(p, q) && !DuplicatePair(q, p)
  }

  lemma AppendApart(pairs: seq<RegionPair>, p: RegionPair)
    requires PairwiseDistinct(pairs) && ProperPair(p) && Apart(p, pairs)
    ensures PairwiseDistinct(pairs + [p])
  {
    assert forall i :: 0 <= i < |pairs| ==> pairs[i] in pairs;
  }

  lemma {:induction false} InsertApart(p: RegionPair, pairs: seq<RegionPair>)
    requires PairwiseDistinct(pairs) && ProperPair(p) && Apart(p, pairs)
    ensures PairwiseDistinct(Insert(p, pairs, PairKeyAtMost))
    ensures forall q :: q in Insert(p, pairs, PairKeyAtMost) <==> q in pairs || q == p
  {
    if pairs == [] || PairKeyAtMost(pairs[|pairs| - 1], p) {
      AppendApart(pairs, p);
    } else {
      var k := |pairs| - 1;
      var rest := pairs[..k];
      assert forall q :: q in pairs <==> q in rest || q == pairs[k];
      InsertApart(p, rest);
      assert Apart(pairs[k], rest) && !DuplicatePair(pairs[k], p) && !DuplicatePair(p, pairs[k]);
      AppendApart(Insert(p, rest, PairKeyAtMost), pairs[k]);
    }
  }

  /** Sorting the accepted pairs keeps them pairwise non-duplicate. */
  lemma {:induction false} SortKeepsApart(pairs: seq<RegionPair>)
    requires PairwiseDistinct(pairs)
    ensures PairwiseDistinct(Sort(pairs, PairKeyAtMost))
    ensures forall q :: q in Sort(pairs, PairKeyAtMost) <==> q in pairs
  {
    if pairs == [] {
    } else {
      var k := |pairs| - 1;
      SortKeepsApart(pairs[..k]);
      assert forall q :: q in pairs <==> q in pairs[..k] || q == pairs[k];
      InsertApart(pairs[k], Sort(pairs[..k], PairKeyAtMost));
    }
  }

  // ----- candidates

  /** min(1, max(0, v / extent)) and its companion for the size */
  function Normalized(v: real, extent: nat): real
    requires extent > 0
  {
    Min(1.0, Max(0.0, v / extent as real))
  }

  function NormalizedSize(origin: real, size: real, extent: nat): real
    requires extent > 0
  {
    Min(1.0 - origin, Max(0.0, size / extent as real))
  }

  function Candidate(box: Box, width: nat, height: nat): Result<Box>
    requires width > 0 && height > 0
  {
    var x, y := Normalized(box.x, width), Normalized(box.y, height);
    var w, h := NormalizedSize(x, box.width, width), NormalizedSize(y, box.height, height);
    if w <= 0.0 || h <= 0.0 then Failure("correspondence region is degenerate") else Success(Box(x, y, w, h))
  }

  lemma QuotientSign(v: real, n: real)
    requires n > 0.0
    ensures v / n > 0.0 <==> v > 0.0
    ensures v / n >= 0.0 <==> v >= 0.0
  {
  }

  lemma QuotientOne(v: real, n: real)
    requires n > 0.0
    ensures v / n >= 1.0 <==> v >= n
    ensures v / n <= 1.0 <==> v <= n
  {
    QuotientSign(v - n, n);
    QuotientSign(n - v, n);
    QuotientDifference(v, n, n);
    QuotientDifference(n, v, n);
  }

  lemma QuotientDifference(v: real, u: real, n: real)
    requires n > 0.0
    ensures (v - u) / n == v / n - u / n
  {
    var p, q := v / n, u / n;
    assert p * n == v && q * n == u;
    assert (p - q) * n == v - u;
  }

  lemma NormalizedAxis(v: real, size: real, extent: nat)
    requires extent > 0 && size > 0.0
    ensures var x := Normalized(v, extent); var w := NormalizedSize(x, size, extent);
            && 0.0 <= x <= 1.0 && x + w <= 1.0
            && (w > 0.0 <==> v < extent as real)
            && (0.0 <= v && v + size <= extent as real ==> x == v / extent as real && w == size / extent as real)
  {
    var n := extent as real;
    QuotientSign(v, n);
    QuotientSign(size, n);
    QuotientOne(v, n);
    QuotientOne(v + size, n);
    QuotientDifference(v + size, size, n);
  }

  /** A proper box becomes a candidate exactly when it starts inside the image; the candidate then
      lies in the unit square, and a box inside the image is merely rescaled. */
  lemma CandidateInUnitSquare(box: Box, width: nat, height: nat)
    requires width > 0 && height > 0 && Proper(box)
    ensures Candidate(box, width, height).Success? <==> box.x < width as real && box.y < height as real
    ensures Candidate(box, width, height).Success? ==>
              var c := Candidate(box, width, height).value;
              0.0 <= c.x && 0.0 <= c.y && Proper(c) && c.x + c.width <= 1.0 && c.y + c.height <= 1.0
    ensures 0.0 <= box.x && 0.0 <= box.y && box.x + box.width <= width as real && box.y + box.height <= height as real ==>
              Candidate(box, width, height)
              == Success(Box(box.x / width as real, box.y / height as real, box.width / width as real, box.height / height as real))
  {
    NormalizedAxis(box.x, box.width, width);
    NormalizedAxis(box.y, box.height, height);
  }

  lemma BoundingBoxInside(points: seq<Point>, width: nat, height: nat)
    requires points != [] && BoundingBox(points).Some?
    requires forall i :: 0 <= i < |points| ==> 0.0 <= points[i].x <= width as real && 0.0 <= points[i].y <= height as real
    ensures var b := BoundingBox(points).value;
            0.0 <= b.x && 0.0 <= b.y && b.x + b.width <= width as real && b.y + b.height <= height as real
  {
    var frame := Box(0.0, 0.0, width as real, height as real);
    assert forall i :: 0 <= i < |points| ==> Contains(frame, points[i]);
    BoxIsLeast(points, frame);
  }

  ghost predicate InImage(c: Correspondence, width: nat, height: nat) {
    && 0.0 <= c.first.x <= width as real && 0.0 <= c.first.y <= height as real
    && 0.0 <= c.second.x <= width as real && 0.0 <= c.second.y <= height as real
  }

  lemma RegionPairBecomesCandidates(items: seq<Correspondence>, width: nat, height: nat)
    requires items != [] && RegionPairOf(items).Some? && width > 0 && height > 0
    requires forall i :: 0 <= i < |items| ==> InImage(items[i], width, height)
    ensures Candidate(RegionPairOf(items).value.first, width, height).Success?
    ensures Candidate(RegionPairOf(items).value.second, width, height).Success?
  {
    BoundingBoxInside(Firsts(items), width, height);
    BoundingBoxInside(Seconds(items), width, height);
    var p := RegionPairOf(items).value;
    CandidateInUnitSquare(p.first, width, height);
    CandidateInUnitSquare(p.second, width, height);
  }

  /** Peeling invents no correspondences. */
  lemma {:induction false} LeftWithin(ransac: Ransac, all: seq<Correspondence>, n: nat, x: Correspondence)
    requires x in LeftAfter(ransac, all, n)
    ensures x in all
  {
    if n == 0 {
    } else {
      PartWithin(ransac, LeftAfter(ransac, all, n - 1), false, x);
      LeftWithin(ransac, all, n - 1, x);
    }
  }

  lemma PartWithin(ransac: Ransac, left: seq<Correspondence>, inlier: bool, x: Correspondence)
    requires x in Part(ransac, left, inlier)
    ensures x in left
  {
    PartsSplit(ransac, left);
    assert x in multiset(Part(ransac, left, inlier));
    assert x in multiset(left);
  }

  /** Every pair that the loop returns for correspondences inside the image becomes a pair of
      candidates: the degenerate-region error cannot be raised for it. */
  lemma AcceptedBecomeCandidates(ransac: Ransac, all: seq<Correspondence>, s: Settings, n: nat, p: RegionPair, width: nat, height: nat)
    requires width > 0 && height > 0
    requires forall i :: 0 <= i < |all| ==> InImage(all[i], width, height)
    requires p in Sort(Accepted(Offers(ransac, all, s), n), PairKeyAtMost)
    ensures Candidate(p.first, width, height).Success? && Candidate(p.second, width, height).Success?
  {
    SortPermutes(Accepted(Offers(ransac, all, s), n), PairKeyAtMost);
    var c := AcceptedWereOffered(Offers(ransac, all, s), n, p);
    var items := InliersAt(ransac, all, c);
    forall i | 0 <= i < |items|
      ensures InImage(items[i], width, height)
    {
      PartWithin(ransac, LeftAfter(ransac, all, c), true, items[i]);
      LeftWithin(ransac, all, c, items[i]);
    }
    RegionPairBecomesCandidates(items, width, height);
  }
}
