/**
  src/fakedetector/analyzers/_image_copy_move.py: what overlap, peeling, the order of the pairs and
  the candidates mean, in coordinates and counts.
 */
module CopyMoveReports {
  import opened Wrappers
  import opened Algebra
  import opened CopyMove
  import opened Sums

  // ----- overlap

  /** The overlap is the share of the common area in the covered area. */
  lemma OverlapIsShare(a: Box, b: Box)
    requires Proper(a) && Proper(b)
    ensures a.Area() + b.Area() - Intersection(a, b) > 0.0
    ensures Product(IntersectionOverUnion(a, b), a.Area() + b.Area() - Intersection(a, b)) == Intersection(a, b)
  {
    IntersectionFits(a, b);
    AreaPositive(a);
    AreaPositive(b);
    ShareTimesUnion(Intersection(a, b), a.Area(), b.Area());
  }

  lemma ShareTimesUnion(intersection: real, areaA: real, areaB: real)
    requires 0.0 <= intersection <= areaA && intersection <= areaB && areaA > 0.0 && areaB > 0.0
    ensures areaA + areaB - intersection > 0.0
    ensures Product(Share(intersection, areaA, areaB), areaA + areaB - intersection) == intersection
  {
  }

  /** Two boxes that reach into each other have a greatest common box, and the common area is its
      area; others have no proper common box, and no common area. */
  lemma IntersectionIsCommonArea(a: Box, b: Box)
    requires Proper(a) && Proper(b)
    ensures (exists c :: GreatestCommon(c, a, b) && c.width * c.height == Intersection(a, b))
            || (Intersection(a, b) == 0.0 && !exists d :: Proper(d) && Within(d, a) && Within(d, b))
  {
    var left, right := CopyMove.Max(a.x, b.x), CopyMove.Min(a.x + a.width, b.x + b.width);
    var top, bottom := CopyMove.Max(a.y, b.y), CopyMove.Min(a.y + a.height, b.y + b.height);
    if left < right && top < bottom {
      var c := Box(left, top, right - left, bottom - top);
      assert GreatestCommon(c, a, b);
    }
  }

  ghost predicate GreatestCommon(c: Box, a: Box, b: Box) {
    && Proper(c) && Within(c, a) && Within(c, b)
    && forall d :: Proper(d) && Within(d, a) && Within(d, b) ==> Within(d, c)
  }

  /** Region pairs are duplicates when both regions overlap by half or more, either way round. */
  lemma DuplicatesExactly(p: RegionPair, q: RegionPair)
    ensures DuplicatePair(p, q) <==>
              || (IntersectionOverUnion(p.first, q.first) >= 0.5 && IntersectionOverUnion(p.second, q.second) >= 0.5)
              || (IntersectionOverUnion(p.first, q.second) >= 0.5 && IntersectionOverUnion(p.second, q.first) >= 0.5)
  {
  }

  /** Boxes are ordered by x, then y, then width, then height; pairs by their first box, then by
      their second. */
  lemma KeysAreLexicographic(a: Box, b: Box, p: RegionPair, q: RegionPair)
    ensures BoxKeyAtMost(a, b) <==>
              || a.x < b.x || (a.x == b.x && a.y < b.y) || (a.x == b.x && a.y == b.y && a.width < b.width)
              || (a.x == b.x && a.y == b.y && a.width == b.width && a.height <= b.height)
    ensures PairKeyAtMost(p, q) <==>
              (p.first != q.first && BoxKeyAtMost(p.first, q.first)) || (p.first == q.first && BoxKeyAtMost(p.second, q.second))
  {
  }

  // ----- splitting and stopping

  /** The kept entries are those at the positions the mask names, in their order, each once. */
  lemma {:induction false} SelectedPositions(items: seq<Correspondence>, mask: seq<bool>, keep: bool) returns (at: seq<nat>)
    requires |items| == |mask|
    ensures |at| == |Selected(items, mask, keep)|
    ensures forall k :: 0 <= k < |at| ==> at[k] < |items| && mask[at[k]] == keep && Selected(items, mask, keep)[k] == items[at[k]]
    ensures forall k, m :: 0 <= k < m < |at| ==> at[k] < at[m]
    ensures forall i :: 0 <= i < |items| && mask[i] == keep ==> i in at
  {
    if items == [] {
      at := [];
    } else {
      var n := |items| - 1;
      at := SelectedPositions(items[..n], mask[..n], keep);
      if mask[n] == keep {
        at := at + [n];
      }
    }
  }

  /** RANSAC's mask decides: its true entries are the cluster, the others remain; without a model
      nothing is taken. */
  lemma PartByMask(ransac: Ransac, left: seq<Correspondence>, inlier: bool)
    ensures ransac(left).Some? ==> |ransac(left).value| == |left| && Part(ransac, left, inlier) == Selected(left, ransac(left).value, inlier)
    ensures ransac(left).None? ==> Part(ransac, left, inlier) == if inlier then [] else left
  {
    var mask := Answer(ransac, left);
  }

  ghost predicate Peels(ransac: Ransac, all: seq<Correspondence>, s: Settings, c: nat) {
    && |LeftAfter(ransac, all, c)| >= s.minClusterInliers && |LeftAfter(ransac, all, c)| >= 3
    && |InliersAt(ransac, all, c)| >= 3
  }

  /** The number of clusters: each of them left enough to start from and reached three inliers, and
      the next does not, or there may be no next. */
  lemma ClustersEnd(ransac: Ransac, all: seq<Correspondence>, s: Settings, n: nat)
    requires StopsAt(Continuing(ransac, all, s), n, s.maxClusters)
    ensures n <= s.maxClusters && (forall c: nat :: c < n ==> Peels(ransac, all, s, c))
    ensures n == s.maxClusters || !Peels(ransac, all, s, n)
  {
    forall c: nat
      ensures Continuing(ransac, all, s)(c) <==> Peels(ransac, all, s, c)
    {
    }
    AllOfThem(Continuing(ransac, all, s), n);
  }

  lemma {:induction false} AllOfThem(holds: nat -> bool, n: nat)
    requires AllBelow(holds, n)
    ensures forall c: nat :: c < n ==> holds(c)
  {
    if n == 0 {
    } else {
      AllOfThem(holds, n - 1);
    }
  }

  /** The cap is reported exactly when enough was left and the last attempt had been used. */
  lemma CappedExactly(left: seq<Correspondence>, s: Settings, n: nat)
    ensures Capped(left, s, n) <==> |left| >= s.minClusterInliers && |left| >= 3 && n + 1 >= s.maxClusters
  {
  }

  /** A running maximum is one of the values, or its start 0. */
  lemma {:induction false} HighestAttained(f: nat -> real, n: nat)
    ensures Highest(f, n) == 0.0 || exists c: nat :: c < n && f(c) == Highest(f, n)
  {
    if n == 0 {
    } else {
      HighestAttained(f, n - 1);
      if Highest(f, n) == f(n - 1) {
      } else if Highest(f, n - 1) != 0.0 {
        var c: nat :| c < n - 1 && f(c) == Highest(f, n - 1);
      }
    }
  }

  /** The reported maxima are those of the clusters: what the ratio of a cluster is. */
  lemma RatioIsShare(ransac: Ransac, all: seq<Correspondence>, c: nat)
    ensures Product(RatioAt(ransac, all, c), |LeftAfter(ransac, all, c)| as real) == |InliersAt(ransac, all, c)| as real
    ensures Ratios(ransac, all)(c) == RatioAt(ransac, all, c)
    ensures InliersCounted(ransac, all)(c) == |InliersAt(ransac, all, c)| as real
  {
    PartsSplit(ransac, LeftAfter(ransac, all, c));
    RatioTimesTotal(|InliersAt(ransac, all, c)|, |LeftAfter(ransac, all, c)|);
  }

  lemma RatioTimesTotal(inliers: nat, total: nat)
    requires inliers <= total
    ensures Product(Ratio(inliers, total), total as real) == inliers as real
  {
  }

  // ----- candidates

  /** Clipping along one axis, in pixels: the start moves up to 0, the size ends at the border. */
  lemma AxisClips(v: real, size: real, extent: nat)
    requires extent > 0 && size > 0.0 && v < extent as real
    ensures Product(Normalized(v, extent), extent as real) == CopyMove.Max(0.0, v)
    ensures Product(NormalizedSize(Normalized(v, extent), size, extent), extent as real)
         == CopyMove.Min(extent as real - CopyMove.Max(0.0, v), size)
  {
    var n := extent as real;
    QuotientSign(v, n);
    QuotientSign(size, n);
    QuotientOne(v, n);
    var x := Normalized(v, extent);
    ScaledQuotient(CopyMove.Max(0.0, v), n);
    ScaledQuotient(size, n);
    assert x == CopyMove.Max(0.0, v) / n;
    ScaledMin(1.0 - x, size / n, n);
    ScaledComplement(x, n);
  }

  lemma ScaledQuotient(v: real, n: real)
    requires n > 0.0
    ensures Product(v / n, n) == v
    ensures v == 0.0 ==> v / n == 0.0
  {
  }

  lemma ScaledComplement(x: real, n: real)
    ensures Product(1.0 - x, n) == n - Product(x, n)
  {
  }

  lemma ScaledMin(a: real, b: real, n: real)
    requires n > 0.0
    ensures Product(CopyMove.Min(a, b), n) == CopyMove.Min(Product(a, n), Product(b, n))
  {
    if b < a {
      ProductPositive(a - b, n);
      Distribute(n, a, b);
    } else {
      ProductNonNegative(b - a, n);
      Distribute(n, b, a);
    }
  }

  /** A candidate is the box clipped at the left and top borders and cut to the image, in units of
      the image. */
  lemma CandidateIsClipped(box: Box, width: nat, height: nat)
    requires width > 0 && height > 0 && Proper(box) && Candidate(box, width, height).Success?
    ensures var c, w, h := Candidate(box, width, height).value, width as real, height as real;
            && Product(c.x, w) == CopyMove.Max(0.0, box.x) && Product(c.y, h) == CopyMove.Max(0.0, box.y)
            && Product(c.width, w) == CopyMove.Min(w - CopyMove.Max(0.0, box.x), box.width)
            && Product(c.height, h) == CopyMove.Min(h - CopyMove.Max(0.0, box.y), box.height)
  {
    CandidateInUnitSquare(box, width, height);
    AxisClips(box.x, box.width, width);
    AxisClips(box.y, box.height, height);
  }
}
