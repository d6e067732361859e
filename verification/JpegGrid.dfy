/**
  scripts/research/jpeg_measurements.py: window placement, the 8-phase vote counts of the
  blocking grid, and the binomial tail that scores them. Luminance is real; a logarithm is
  represented by the number it is taken of, so a score of 10^ell below 1 is ell < 0.
 */
module JpegGrid {
  import opened Wrappers
  import opened Integers
  import opened Binomial
  import opened Sums
  import opened Algebra

  datatype Region = Region(x: int, y: int, width: int, height: int)

  datatype Axis = Axis(
    counts: seq<int>,
    n: int,
    m: int,
    fractions: Option<seq<real>>,
    maximumFraction: Option<real>,
    boundaryPhase: Option<int>,
    blockPhase: Option<int>,
    score: Option<real>)

  datatype GridWindow = GridWindow(
    centers: (int, int, int, int),
    support: (int, int, int, int),
    area: int,
    x: Axis,
    y: Axis,
    flag: bool)

  // ----- window placement

  ghost predicate StrictlyIncreasing(s: seq<int>) {
    forall i, j :: 0 <= i < j < |s| ==> s[i] < s[j]
  }

  /** sorted(set(...)), one element at a time */
  function InsertDistinct(v: int, s: seq<int>): (r: seq<int>)
    requires StrictlyIncreasing(s)
    ensures StrictlyIncreasing(r)
    ensures forall x :: x in r <==> x == v || x in s
  {
    if s == [] || v < s[0] then [v] + s
    else if v == s[0] then s
    else
      var rest := InsertDistinct(v, s[1..]);
      assert forall x :: x in s <==> x == s[0] || x in s[1..];
      assert forall x :: x in s[1..] ==> s[0] < x;
      assert forall i :: 0 <= i < |rest| ==> rest[i] in rest;
      assert forall i :: 0 <= i < |rest| ==> s[0] < rest[i];
      [s[0]] + rest
  }

  function Origin(available: int, side: int, i: int): int {
    1 + (i * (available - side)) / 3
  }

  /** The origins of the first n windows of an axis. */
  function FirstOrigins(available: int, side: int, n: nat): (r: seq<int>)
    ensures StrictlyIncreasing(r)
    ensures forall x :: x in r <==> exists i :: 0 <= i < n && x == Origin(available, side, i)
  {
    if n == 0 then [] else InsertDistinct(Origin(available, side, n - 1), FirstOrigins(available, side, n - 1))
  }

  function Origins(available: int, side: int): (r: seq<int>)
    ensures StrictlyIncreasing(r)
    ensures forall x :: x in r <==> exists i :: 0 <= i < 4 && x == Origin(available, side, i)
  {
    FirstOrigins(available, side, 4)
  }

  function WindowSide(available: int): int {
    8 * ((if available < 512 then available else 512) / 8)
  }

  function WindowRow(xs: seq<int>, y: int, w: int, h: int): seq<Region> {
    if xs == [] then [] else [Region(xs[0], y, w, h)] + WindowRow(xs[1..], y, w, h)
  }

  function WindowRows(xs: seq<int>, ys: seq<int>, w: int, h: int): seq<Region> {
    if ys == [] then [] else WindowRow(xs, ys[0], w, h) + WindowRows(xs, ys[1..], w, h)
  }

  function Windows(width: int, height: int): seq<Region> {
    var w, h := WindowSide(width - 3), WindowSide(height - 3);
    if w < 64 || h < 64 then []
    else WindowRows(Origins(width - 3, w), Origins(height - 3, h), w, h)
  }

  lemma {:induction false} WindowRowMembers(xs: seq<int>, y: int, w: int, h: int, r: Region)
    ensures r in WindowRow(xs, y, w, h) <==> r.x in xs && r == Region(r.x, y, w, h)
    ensures |WindowRow(xs, y, w, h)| == |xs|
  {
    if xs == [] {
    } else {
      WindowRowMembers(xs[1..], y, w, h, r);
    }
  }

  lemma {:induction false} WindowRowsMembers(xs: seq<int>, ys: seq<int>, w: int, h: int, r: Region)
    ensures r in WindowRows(xs, ys, w, h) <==> r.x in xs && r.y in ys && r.width == w && r.height == h
    ensures |WindowRows(xs, ys, w, h)| == |ys| * |xs|
  {
    if ys == [] {
    } else {
      WindowRowMembers(xs, ys[0], w, h, r);
      WindowRowsMembers(xs, ys[1..], w, h, r);
    }
  }

  /** Along one axis: a window with its halo of one pixel before and two after stays in the raster. */
  lemma OriginsFit(extent: int, x: int)
    requires WindowSide(extent - 3) >= 64
    requires x in Origins(extent - 3, WindowSide(extent - 3))
    ensures 1 <= x && x + WindowSide(extent - 3) + 2 <= extent
  {
    var slack := extent - 3 - WindowSide(extent - 3);
    var i :| 0 <= i < 4 && x == Origin(extent - 3, WindowSide(extent - 3), i);
    MulMonotone(slack, i, 3);
    MulMonotone(slack, 0, i);
    FloorMonotone(i * slack, 3 * slack, 3);
  }

  /** The windows of an axis start at the first usable pixel and end at the last one. */
  lemma OriginsReachBothEnds(extent: int)
    requires WindowSide(extent - 3) >= 64
    ensures var xs, w := Origins(extent - 3, WindowSide(extent - 3)), WindowSide(extent - 3);
            1 <= |xs| && xs[0] == 1 && xs[|xs| - 1] + w + 2 == extent
  {
    var w := WindowSide(extent - 3);
    var xs := Origins(extent - 3, w);
    var slack := extent - 3 - w;
    assert Origin(extent - 3, w, 0) == 1 && Origin(extent - 3, w, 3) == 1 + slack;
    assert 1 in xs && 1 + slack in xs;
    assert xs[0] in xs && xs[|xs| - 1] in xs;
    OriginsFit(extent, xs[0]);
    OriginsFit(extent, xs[|xs| - 1]);
  }

  /** The side is the largest whole number of blocks within 512 and what is available. */
  lemma WindowSideBlocks(available: int)
    ensures var w := WindowSide(available);
            w % 8 == 0 && w <= 512 && w <= available && (w + 8 > 512 || w + 8 > available)
  {
  }

  /** The window x starts a whole number i of thirds of the slack behind pixel 1, rounded down. */
  ghost predicate AtThird(x: int, slack: int) {
    exists i :: 0 <= i < 4 && StartsAt(x, slack, i)
  }

  ghost predicate StartsAt(x: int, slack: int, i: int) {
    3 * (x - 1) <= i * slack < 3 * (x - 1) + 3
  }

  lemma OriginsAreThirds(available: int, side: int, x: int)
    ensures x in Origins(available, side) <==> AtThird(x, available - side)
  {
    var slack := available - side;
    forall i | 0 <= i < 4
      ensures x == Origin(available, side, i) <==> StartsAt(x, slack, i)
    {
      FloorUnique(i * slack, 3, x - 1);
    }
  }

  /** Exactly which windows a raster has: up to four origins per axis, evenly spread, and none at
      all where eight blocks do not fit on both axes. */
  lemma WindowsAreExactly(width: int, height: int, r: Region)
    ensures var w, h := WindowSide(width - 3), WindowSide(height - 3);
            r in Windows(width, height) <==>
              && w >= 64 && h >= 64 && r.width == w && r.height == h
              && AtThird(r.x, width - 3 - w) && AtThird(r.y, height - 3 - h)
  {
    var w, h := WindowSide(width - 3), WindowSide(height - 3);
    WindowRowsMembers(Origins(width - 3, w), Origins(height - 3, h), w, h, r);
    OriginsAreThirds(width - 3, w, r.x);
    OriginsAreThirds(height - 3, h, r.y);
  }

  /** What the vote support relies on, for every window of every raster. */
  lemma WindowsFit(width: int, height: int, r: Region)
    requires r in Windows(width, height)
    ensures r.width == WindowSide(width - 3) && r.height == WindowSide(height - 3)
    ensures 64 <= r.width <= 512 && r.width % 8 == 0
    ensures 64 <= r.height <= 512 && r.height % 8 == 0
    ensures 0 <= r.x - 1 && r.x + r.width + 2 <= width
    ensures 0 <= r.y - 1 && r.y + r.height + 2 <= height
  {
    var w, h := WindowSide(width - 3), WindowSide(height - 3);
    WindowRowsMembers(Origins(width - 3, w), Origins(height - 3, h), w, h, r);
    OriginsFit(width, r.x);
    OriginsFit(height, r.y);
    WindowSideBlocks(width - 3);
    WindowSideBlocks(height - 3);
  }

  // ----- number of candidate rectangles

  function RectangleCount(side: int): int {
    var count := side / 8;
    count * (side + 1) - 4 * count * (count + 1)
  }

  /** The spans of n whole blocks inside a side, as (start, n). */
  function SpansOf(side: nat, n: nat): (s: set<(int, int)>)
    requires 8 * n <= side
    ensures forall start, m :: (start, m) in s <==> m == n && 0 <= start && start + 8 * n <= side
    ensures |s| == side - 8 * n + 1
  {
    SpansFrom(side - 8 * n + 1, n)
  }

  function SpansFrom(starts: nat, n: nat): (s: set<(int, int)>)
    ensures forall start, m :: (start, m) in s <==> m == n && 0 <= start < starts
    ensures |s| == starts
  {
    if starts == 0 then {} else SpansFrom(starts - 1, n) + {(starts - 1, n)}
  }

  /** All spans of a whole positive number of blocks, up to the given number, inside a side. */
  function Spans(side: nat, blocks: nat): (s: set<(int, int)>)
    requires 8 * blocks <= side
    ensures forall start, n :: (start, n) in s <==> 1 <= n <= blocks && 0 <= start && start + 8 * n <= side
    ensures |s| == blocks * (side + 1) - 4 * blocks * (blocks + 1)
  {
    if blocks == 0 then {}
    else
      var shorter, longest := Spans(side, blocks - 1), SpansOf(side, blocks);
      forall p | p in shorter
        ensures p !in longest
      {
        assert p == (p.0, p.1);
      }
      SpanStep(side, blocks);
      shorter + longest
  }

  lemma SpanStep(side: int, blocks: int)
    ensures (blocks - 1) * (side + 1) - 4 * (blocks - 1) * blocks + (side - 8 * blocks + 1)
         == blocks * (side + 1) - 4 * blocks * (blocks + 1)
  {
  }

  /** The closed form is the number of spans of a whole positive number of blocks inside the side. */
  lemma RectangleCountIsSpans(side: nat)
    ensures RectangleCount(side) == |Spans(side, side / 8)|
    ensures forall start, n :: (start, n) in Spans(side, side / 8) <==> n >= 1 && start >= 0 && start + 8 * n <= side
    ensures side >= 8 ==> RectangleCount(side) > 0
  {
    if side >= 8 {
      assert (0, 1) in Spans(side, side / 8);
    }
  }

  // ----- the binomial tail

  /** exp(log_tail), or the raised error. */
  function TailScore(eta: int, kappa: int, p: real): Result<real> {
    if !(0.0 <= p <= 1.0) || !(0 <= kappa <= eta) then Failure("invalid binomial arguments")
    else if p == 0.0 && kappa > 0 then Failure("impossible positive count at p=0")
    else Success(Tail(eta, kappa, p))
  }

  method LogTail(eta: int, kappa: int, p: real) returns (r: Result<real>)
    ensures r == TailScore(eta, kappa, p)
    ensures r.Failure? <==> p < 0.0 || p > 1.0 || kappa < 0 || kappa > eta || (p == 0.0 && kappa > 0)
    ensures r.Success? ==> r.value == Tail(eta, kappa, p) && 0.0 < r.value <= 1.0
  {
    if !(0.0 <= p <= 1.0) || !(0 <= kappa <= eta) {
      return Failure("invalid binomial arguments");
    }
    if p == 0.0 && kappa > 0 {
      return Failure("impossible positive count at p=0");
    }
    TailShape(eta, kappa, p);
    if kappa == 0 || p == 1.0 {
      return Success(1.0);
    }
    var sum := TailByRecurrence(eta, kappa, p);
    r := Success(sum);
  }

  method TailByRecurrence(eta: nat, kappa: nat, p: real) returns (sum: real)
    requires kappa <= eta && 0.0 < p < 1.0
    ensures sum == Tail(eta, kappa, p)
  {
    var term := GammaTerm(eta, kappa, p);
    TermBounds(eta, kappa, p);
    var terms := [term];
    assert terms[..0] == [];
    for j := kappa to eta
      invariant |terms| > 0 && terms[0] > 0.0
      invariant term == Term(eta, j, p)
      invariant Sum(terms) == Tail(eta, kappa, p) - Tail(eta, j + 1, p)
    {
      term := NextTerm(term, eta, j, p);
      assert (terms + [term])[..|terms|] == terms;
      terms := terms + [term];
    }
    MaxIsGreatest(terms);
    sum := MaxShiftedSum(terms);
  }

  /** term += log(eta-j) - log(j+1) + log p - log q */
  method NextTerm(term: real, eta: nat, j: nat, p: real) returns (next: real)
    requires j < eta && 0.0 < p < 1.0
    requires term == Term(eta, j, p)
    ensures next == Term(eta, j + 1, p)
  {
    TermNeighbour(eta, j, p);
    next := Recurrence(term, eta - j, j + 1, p);
    SolveNeighbour(term, Term(eta, j + 1, p), eta - j, j + 1, p);
  }

  function Recurrence(term: real, numerator: int, denominator: int, p: real): real
    requires denominator > 0 && p < 1.0
  {
    term * numerator as real / denominator as real * (p / (1.0 - p))
  }

  lemma SolveNeighbour(t: real, s: real, u: int, v: int, p: real)
    requires Times(s, v, 1.0 - p) == Times(t, u, p)
    requires v > 0 && p < 1.0
    ensures Recurrence(t, u, v, p) == s
  {
    var q, ur, vr := 1.0 - p, u as real, v as real;
    var k := p / q;
    assert k * q == p;
    assert s * vr * q == t * ur * k * q;
    assert s * vr == t * ur * k;
    assert s == s * vr / vr;
  }

  // ----- one axis

  function MaxInt(s: seq<int>): (m: int)
    requires s != []
    ensures m in s && forall x :: x in s ==> x <= m
  {
    if |s| == 1 then s[0]
    else
      var rest := MaxInt(s[1..]);
      assert forall x :: x in s ==> x == s[0] || x in s[1..];
      if s[0] < rest then rest else s[0]
  }

  function CountInt(s: seq<int>, v: int): nat {
    if s == [] then 0 else (if s[0] == v then 1 else 0) + CountInt(s[1..], v)
  }

  function IndexOf(s: seq<int>, v: int): (i: int)
    requires v in s
    ensures 0 <= i < |s| && s[i] == v && v !in s[..i]
  {
    if s[0] == v then 0 else 1 + IndexOf(s[1..], v)
  }

  predicate VoteSupport(counts: seq<int>, area: int) {
    && |counts| == 8 && (forall i :: 0 <= i < 8 ==> counts[i] >= 0)
    && area % 16 == 0 && SumInts(counts) <= area
  }

  /** The phase of the maximum, when only one phase has it. */
  function UniquePhase(counts: seq<int>): Option<int>
    requires counts != []
  {
    var m := MaxInt(counts);
    if CountInt(counts, m) == 1 then Some(IndexOf(counts, m)) else None
  }

  /** 10^ell for n votes of which m in the strongest phase; no votes, no score. */
  function AxisScore(n: int, m: int, area: int, nt: int): Result<Option<real>> {
    if n == 0 then Success(None)
    else if area == 0 then Failure("division by zero")
    else if nt <= 0 then Failure("math domain error")
    else
      match TailScore(area / 16, (m + 1) / 2, n as real / area as real)
      case Failure(e) => Failure(e)
      case Success(tail) => Success(Some(nt as real * tail))
  }

  function AxisMeasurement(counts: seq<int>, area: int, nt: int): Result<Axis> {
    if !VoteSupport(counts, area) then Failure("invalid vote support")
    else
      match AxisScore(SumInts(counts), MaxInt(counts), area, nt)
      case Failure(e) => Failure(e)
      case Success(score) => Success(AxisOf(counts, score))
  }

  function AxisOf(counts: seq<int>, score: Option<real>): Axis
    requires counts != []
  {
    var n, m, phase := SumInts(counts), MaxInt(counts), UniquePhase(counts);
    Axis(counts, n, m, Fractions(counts, n), Fraction(m, n), phase, NextPhase(phase), score)
  }

  /** The block phase lies one behind the boundary phase. */
  function NextPhase(phase: Option<int>): Option<int> {
    if phase.Some? then Some((phase.value + 1) % 8) else None
  }

  function Fraction(m: int, n: int): Option<real> {
    if n != 0 then Some(m as real / n as real) else None
  }

  function Fractions(counts: seq<int>, n: int): Option<seq<real>> {
    if n != 0 then Some(seq(|counts|, i requires 0 <= i < |counts| => counts[i] as real / n as real)) else None
  }

  // ----- votes

  type Raster = seq<seq<real>>

  predicate HasShape(luminance: Raster, rows: int, columns: int) {
    |luminance| == rows && forall i :: 0 <= i < |luminance| ==> |luminance[i]| == columns
  }

  /** The mixed second difference at one cell. */
  function Cross(luminance: Raster, row: nat, column: nat): real
    requires row + 1 < |luminance| && column + 1 < |luminance[row]| && column + 1 < |luminance[row + 1]|
  {
    Magnitude(luminance[row][column] + luminance[row + 1][column + 1] - luminance[row][column + 1] - luminance[row + 1][column])
  }

  function VoteX(luminance: Raster, h: nat, w: nat, row: nat, column: nat): bool
    requires HasShape(luminance, h + 3, w + 3) && row < h && column < w
  {
    var center := Cross(luminance, row + 1, column + 1);
    center > Cross(luminance, row + 1, column) && center > Cross(luminance, row + 1, column + 2)
  }

  function VoteY(luminance: Raster, h: nat, w: nat, row: nat, column: nat): bool
    requires HasShape(luminance, h + 3, w + 3) && row < h && column < w
  {
    var center := Cross(luminance, row + 1, column + 1);
    center > Cross(luminance, row, column + 1) && center > Cross(luminance, row + 2, column + 1)
  }

  /** The lines across an axis: columns for x, rows for y. */
  function LinesX(luminance: Raster, h: nat, w: nat): (lines: seq<seq<bool>>)
    requires HasShape(luminance, h + 3, w + 3)
    ensures |lines| == w && Rectangular(lines, h) && NoTwoNeighbours(lines, h)
  {
    seq(w, column requires 0 <= column < w => seq(h, row requires 0 <= row < h => VoteX(luminance, h, w, row, column)))
  }

  function LinesY(luminance: Raster, h: nat, w: nat): (lines: seq<seq<bool>>)
    requires HasShape(luminance, h + 3, w + 3)
    ensures |lines| == h && Rectangular(lines, w) && NoTwoNeighbours(lines, w)
  {
    seq(h, row requires 0 <= row < h => seq(w, column requires 0 <= column < w => VoteY(luminance, h, w, row, column)))
  }

  ghost predicate Rectangular(lines: seq<seq<bool>>, length: nat) {
    forall i :: 0 <= i < |lines| ==> |lines[i]| == length
  }

  ghost predicate Disjoint(a: seq<bool>, b: seq<bool>)
    requires |a| == |b|
  {
    forall j :: 0 <= j < |a| ==> !(a[j] && b[j])
  }

  /** A strict local maximum leaves no room for a vote right beside it. */
  ghost predicate NoTwoNeighbours(lines: seq<seq<bool>>, length: nat)
    requires Rectangular(lines, length)
  {
    forall i, k :: 0 <= i && k == i + 1 < |lines| ==> Disjoint(lines[i], lines[k])
  }

  function Count(line: seq<bool>): nat {
    if line == [] then 0 else Count(line[..|line| - 1]) + if line[|line| - 1] then 1 else 0
  }

  function Votes(lines: seq<seq<bool>>): nat {
    if lines == [] then 0 else Votes(lines[..|lines| - 1]) + Count(lines[|lines| - 1])
  }

  /** votes[residue::8].sum() */
  function ResidueVotes(lines: seq<seq<bool>>, residue: int): nat {
    if lines == [] then 0
    else ResidueVotes(lines[..|lines| - 1], residue)
         + if (|lines| - 1) % 8 == residue then Count(lines[|lines| - 1]) else 0
  }

  function PhaseCounts(lines: seq<seq<bool>>, origin: int): (counts: seq<int>)
    ensures |counts| == 8
  {
    seq(8, phase => ResidueVotes(lines, (phase - origin) % 8))
  }

  lemma {:induction false} CountBound(line: seq<bool>)
    ensures Count(line) <= |line|
  {
    if line == [] {
    } else {
      CountBound(line[..|line| - 1]);
    }
  }

  lemma {:induction false} NeighbourPair(a: seq<bool>, b: seq<bool>)
    requires |a| == |b| && Disjoint(a, b)
    ensures Count(a) + Count(b) <= |a|
  {
    if a == [] {
    } else {
      NeighbourPair(a[..|a| - 1], b[..|b| - 1]);
    }
  }

  /** At most half of the cells vote. */
  lemma {:induction false} HalfVote(lines: seq<seq<bool>>, length: nat)
    requires Rectangular(lines, length) && NoTwoNeighbours(lines, length) && |lines| % 2 == 0
    ensures 2 * Votes(lines) <= |lines| * length
  {
    if lines == [] {
    } else {
      var k := |lines| - 2;
      var rest := lines[..k];
      HalfVote(rest, length);
      NeighbourPair(lines[k], lines[k + 1]);
      assert lines[..k + 1][..k] == rest;
      TwoMoreLines(k, length);
    }
  }

  lemma TwoMoreLines(lines: int, length: int)
    ensures (lines + 2) * length == lines * length + 2 * length
  {
  }

  /** How many of the first k indices fall in a residue class. */
  function ClassSize(residue: int, k: nat): nat {
    if k == 0 then 0 else ClassSize(residue, k - 1) + if (k - 1) % 8 == residue then 1 else 0
  }

  lemma {:induction false} ClassSizeOfBlocks(residue: int, k: nat)
    requires 0 <= residue < 8
    ensures 8 * ClassSize(residue, k) <= k + 7 - residue < 8 * ClassSize(residue, k) + 8
  {
    if k == 0 {
    } else {
      ClassSizeOfBlocks(residue, k - 1);
    }
  }

  lemma {:induction false} ResidueBound(lines: seq<seq<bool>>, length: nat, residue: int)
    requires Rectangular(lines, length)
    ensures ResidueVotes(lines, residue) <= ClassSize(residue, |lines|) * length
  {
    if lines == [] {
    } else {
      var k := |lines| - 1;
      ResidueBound(lines[..k], length, residue);
      CountBound(lines[k]);
      OneMoreLine(ClassSize(residue, k), length);
    }
  }

  lemma OneMoreLine(size: int, length: int)
    ensures (size + 1) * length == size * length + length
  {
  }

  lemma EightTimes(blocks: int, length: int)
    ensures 8 * (blocks * length) == (8 * blocks) * length
  {
  }

  /** Each phase owns an eighth of the lines, hence at most an eighth of the cells. */
  lemma EighthBound(lines: seq<seq<bool>>, length: nat, origin: int, phase: int)
    requires Rectangular(lines, length) && |lines| % 8 == 0 && 0 <= phase < 8
    ensures 0 <= 8 * PhaseCounts(lines, origin)[phase] <= |lines| * length
  {
    var residue := (phase - origin) % 8;
    ResidueBound(lines, length, residue);
    ClassSizeOfBlocks(residue, |lines|);
    var blocks := |lines| / 8;
    assert |lines| == 8 * blocks && ClassSize(residue, |lines|) == blocks;
    EightTimes(blocks, length);
  }

  /** The eight phases partition the votes. */
  lemma {:induction false} PhasesPartition(lines: seq<seq<bool>>, origin: int)
    ensures SumInts(PhaseCounts(lines, origin)) == Votes(lines)
  {
    if lines == [] {
      forall phase | 0 <= phase < 8
        ensures PhaseCounts(lines, origin)[phase] == 0
      {
        assert ResidueVotes(lines, (phase - origin) % 8) == 0;
      }
      SumOfZeros(PhaseCounts(lines, origin));
    } else {
      var k := |lines| - 1;
      PhasesPartition(lines[..k], origin);
      PhaseStep(lines, origin);
      var before, mine := PhaseCounts(lines[..k], origin), (k + origin) % 8;
      SumOfUpdated(before, mine, before[mine] + Count(lines[k]));
    }
  }

  /** A line adds its votes to the one phase of its position. */
  lemma PhaseStep(lines: seq<seq<bool>>, origin: int)
    requires lines != []
    ensures var k := |lines| - 1;
            var before, mine := PhaseCounts(lines[..k], origin), (k + origin) % 8;
            PhaseCounts(lines, origin) == before[mine := before[mine] + Count(lines[k])]
  {
    var k := |lines| - 1;
    var before, mine := PhaseCounts(lines[..k], origin), (k + origin) % 8;
    forall phase | 0 <= phase < 8
      ensures PhaseCounts(lines, origin)[phase] == if phase == mine then before[phase] + Count(lines[k]) else before[phase]
    {
      PhaseOfLine(k, origin, phase);
    }
  }

  lemma PhaseOfLine(k: int, origin: int, phase: int)
    requires 0 <= phase < 8
    ensures k % 8 == (phase - origin) % 8 <==> phase == (k + origin) % 8
  {
  }

  /** Exactly when axis_measurement returns; every other argument raises. */
  lemma AxisMeasurementReturns(counts: seq<int>, area: int, nt: int)
    ensures AxisMeasurement(counts, area, nt).Success? <==>
              && VoteSupport(counts, area)
              && (SumInts(counts) > 0 ==> nt > 0 && (forall i :: 0 <= i < 8 ==> 8 * counts[i] <= area))
  {
    if VoteSupport(counts, area) {
      SumNonNegative(counts);
      var n, m := SumInts(counts), MaxInt(counts);
      if n > 0 {
        var p := n as real / area as real;
        FractionBounds(n, area);
        assert (m + 1) / 2 <= area / 16 <==> 8 * m <= area;
        assert 8 * m <= area <==> forall i :: 0 <= i < 8 ==> 8 * counts[i] <= area by {
          assert forall i :: 0 <= i < 8 ==> counts[i] in counts;
        }
      }
    }
  }

  lemma FractionBounds(n: int, area: int)
    requires 0 < n <= area
    ensures 0.0 < n as real / area as real <= 1.0
  {
  }

  lemma {:induction false} SumNonNegative(s: seq<int>)
    requires forall i :: 0 <= i < |s| ==> s[i] >= 0
    ensures SumInts(s) >= 0
  {
    if s == [] {
    } else {
      SumNonNegative(s[1..]);
    }
  }

  // ----- one window and the whole raster

  function MeasureX(luminance: Raster, width: nat, height: nat, origin: int, nt: int): Result<Axis>
    requires HasShape(luminance, height + 3, width + 3)
  {
    AxisMeasurement(PhaseCounts(LinesX(luminance, height, width), origin), width * height, nt)
  }

  function MeasureY(luminance: Raster, width: nat, height: nat, origin: int, nt: int): Result<Axis>
    requires HasShape(luminance, height + 3, width + 3)
  {
    AxisMeasurement(PhaseCounts(LinesY(luminance, height, width), origin), width * height, nt)
  }

  /** A blocking phase on the axis, with a score below 1 (ell < 0). */
  predicate Significant(axis: Axis) {
    axis.blockPhase.Some? && axis.score.Some? && axis.score.value < 1.0
  }

  function Assemble(region: Region, x: Axis, y: Axis): GridWindow {
    GridWindow(
      (region.x, region.y, region.x + region.width, region.y + region.height),
      (region.x - 1, region.y - 1, region.x + region.width + 2, region.y + region.height + 2),
      region.width * region.height, x, y, Significant(x) && Significant(y))
  }

  function MeasureWindow(luminance: Raster, region: Region, nt: int): Result<GridWindow> {
    if region.width < 0 || region.height < 0 || !HasShape(luminance, region.height + 3, region.width + 3) then
      Failure("invalid window support")
    else
      match MeasureX(luminance, region.width, region.height, region.x, nt)
      case Failure(e) => Failure(e)
      case Success(x) =>
        match MeasureY(luminance, region.width, region.height, region.y, nt)
        case Failure(e) => Failure(e)
        case Success(y) => Success(Assemble(region, x, y))
  }

  /** The number of hypotheses that measure_grid corrects for. */
  function Hypotheses(width: int, height: int): int {
    16 * RectangleCount(width - 3) * RectangleCount(height - 3)
  }

  lemma AreaOfBlocks(w: int, h: int)
    requires w % 8 == 0 && h % 8 == 0
    ensures (w * h) % 16 == 0
  {
    var a, b := w / 8, h / 8;
    assert w * h == 16 * (4 * a * b);
  }

  /** Eight phases on two axes, for every span of blocks in x and every one in y. */
  lemma HypothesesCounted(width: nat, height: nat)
    requires width >= 3 && height >= 3
    ensures Hypotheses(width, height)
         == 16 * |Spans(width - 3, (width - 3) / 8)| * |Spans(height - 3, (height - 3) / 8)|
  {
    var r, s := RectangleCount(width - 3), RectangleCount(height - 3);
    SpanNumber(width - 3, r);
    SpanNumber(height - 3, s);
    SameProduct(r, s, |Spans(width - 3, (width - 3) / 8)|, |Spans(height - 3, (height - 3) / 8)|);
  }

  lemma SameProduct(a: int, b: int, c: int, d: int)
    requires a == c && b == d
    ensures 16 * a * b == 16 * c * d
  {
  }

  lemma SpanNumber(side: nat, count: int)
    requires count == RectangleCount(side)
    ensures count == |Spans(side, side / 8)|
  {
    RectangleCountIsSpans(side);
  }

  lemma HypothesesPositive(width: int, height: int)
    requires WindowSide(width - 3) >= 64 && WindowSide(height - 3) >= 64
    ensures Hypotheses(width, height) > 0
  {
    RectangleCountIsSpans(width - 3);
    RectangleCountIsSpans(height - 3);
    PositiveProduct(RectangleCount(width - 3), RectangleCount(height - 3));
  }

  lemma PositiveProduct(a: int, b: int)
    requires a > 0 && b > 0
    ensures 16 * a * b > 0
  {
    MulStrict(a, 0, b);
  }

  lemma VotesBounded(lines: seq<seq<bool>>, length: nat, origin: int, counts: seq<int>, area: int)
    requires Rectangular(lines, length) && NoTwoNeighbours(lines, length) && |lines| % 8 == 0
    requires counts == PhaseCounts(lines, origin) && area == |lines| * length
    ensures 0 <= 2 * SumInts(counts) <= area
    ensures forall phase :: 0 <= phase < 8 ==> 0 <= 8 * counts[phase] <= area
  {
    HalfOfCells(lines, length, origin);
    forall phase | 0 <= phase < 8
      ensures 0 <= 8 * counts[phase] <= area
    {
      EighthBound(lines, length, origin, phase);
    }
  }

  lemma HalfOfCells(lines: seq<seq<bool>>, length: nat, origin: int)
    requires Rectangular(lines, length) && NoTwoNeighbours(lines, length) && |lines| % 8 == 0
    ensures 0 <= 2 * SumInts(PhaseCounts(lines, origin)) <= |lines| * length
  {
    PhasesPartition(lines, origin);
    HalfVote(lines, length);
  }

  /** No window of any raster makes a measurement raise, whatever its luminance; at most half
      of its cells vote on either axis and no phase gets more than an eighth of them. */
  lemma GridNeverRaises(width: int, height: int, region: Region, luminance: Raster)
    requires region in Windows(width, height)
    requires HasShape(luminance, region.height + 3, region.width + 3)
    ensures MeasureWindow(luminance, region, Hypotheses(width, height)).Success?
    ensures var g := MeasureWindow(luminance, region, Hypotheses(width, height)).value;
            && 2 * g.x.n <= g.area && 2 * g.y.n <= g.area
            && 8 * g.x.m <= g.area && 8 * g.y.m <= g.area
            && 0 <= g.support.0 && g.support.2 <= width && 0 <= g.support.1 && g.support.3 <= height
  {
    WindowsFit(width, height, region);
    var w, h, nt := region.width, region.height, Hypotheses(width, height);
    HypothesesPositive(width, height);
    AreaOfBlocks(w, h);
    var cx, cy := PhaseCounts(LinesX(luminance, h, w), region.x), PhaseCounts(LinesY(luminance, h, w), region.y);
    VotesBounded(LinesX(luminance, h, w), h, region.x, cx, w * h);
    VotesBounded(LinesY(luminance, h, w), w, region.y, cy, w * h);
    AxisMeasurementReturns(cx, w * h, nt);
    AxisMeasurementReturns(cy, w * h, nt);
  }

  // ----- moving a window

  function Rotated(s: seq<int>, shift: int): (r: seq<int>)
    requires |s| == 8
    ensures |r| == 8
  {
    seq(8, i => s[(i - shift) % 8])
  }

  lemma ResidueOfDifference(a: int, b: int)
    ensures (a % 8 - b) % 8 == (a - b) % 8
  {
  }

  lemma ShiftRotatesCounts(lines: seq<seq<bool>>, origin: int, shift: int)
    ensures PhaseCounts(lines, origin + shift) == Rotated(PhaseCounts(lines, origin), shift)
  {
    forall phase | 0 <= phase < 8
      ensures PhaseCounts(lines, origin + shift)[phase] == Rotated(PhaseCounts(lines, origin), shift)[phase]
    {
      ResidueOfDifference(phase - shift, origin);
    }
  }

  lemma {:induction false} SumIntsConcat(a: seq<int>, b: seq<int>)
    ensures SumInts(a + b) == SumInts(a) + SumInts(b)
    ensures forall v :: CountInt(a + b, v) == CountInt(a, v) + CountInt(b, v)
  {
    if a == [] {
      assert a + b == b;
    } else {
      assert (a + b)[1..] == a[1..] + b;
      SumIntsConcat(a[1..], b);
    }
  }

  /** A rotation is two blocks exchanged. */
  lemma RotatedIsExchange(s: seq<int>, shift: int)
    requires |s| == 8
    ensures Rotated(s, shift) == s[(-shift) % 8..] + s[..(-shift) % 8]
  {
    var cut := (-shift) % 8;
    forall i | 0 <= i < 8
      ensures Rotated(s, shift)[i] == (s[cut..] + s[..cut])[i]
    {
      ResidueOfShift(i, shift);
    }
  }

  lemma ResidueOfShift(i: int, shift: int)
    requires 0 <= i < 8
    ensures (i - shift) % 8 == if i + (-shift) % 8 < 8 then i + (-shift) % 8 else i + (-shift) % 8 - 8
  {
  }

  lemma RotatedKeepsTotals(s: seq<int>, shift: int)
    requires |s| == 8
    ensures SumInts(Rotated(s, shift)) == SumInts(s)
    ensures forall v :: CountInt(Rotated(s, shift), v) == CountInt(s, v)
    ensures MaxInt(Rotated(s, shift)) == MaxInt(s)
  {
    var cut := (-shift) % 8;
    RotatedIsExchange(s, shift);
    var r := Rotated(s, shift);
    assert s == s[..cut] + s[cut..];
    SumIntsConcat(s[cut..], s[..cut]);
    SumIntsConcat(s[..cut], s[cut..]);
    assert forall x :: x in r <==> x in s;
  }

  lemma {:induction false} CountPositive(s: seq<int>, v: int)
    requires v in s
    ensures CountInt(s, v) > 0
  {
    if s[0] == v {
    } else {
      CountPositive(s[1..], v);
    }
  }

  lemma {:induction false} SingleOccurrence(s: seq<int>, v: int, i: nat, j: nat)
    requires CountInt(s, v) == 1
    requires i < |s| && j < |s| && s[i] == v && s[j] == v
    ensures i == j
  {
    if i == 0 && j == 0 {
    } else if i == 0 || j == 0 {
      CountPositive(s[1..], v);
    } else {
      if s[0] == v {
        CountPositive(s[1..], v);
      }
      SingleOccurrence(s[1..], v, i - 1, j - 1);
    }
  }

  /** What a shift of the window by `shift` pixels does to the measured axis. */
  ghost predicate IsRotation(a: Axis, b: Axis, shift: int)
    requires |a.counts| == 8
  {
    && b.counts == Rotated(a.counts, shift)
    && b.n == a.n && b.m == a.m && b.maximumFraction == a.maximumFraction && b.score == a.score
    && b.boundaryPhase == MovedPhase(a.boundaryPhase, shift) && b.blockPhase == MovedPhase(a.blockPhase, shift)
  }

  function MovedPhase(phase: Option<int>, shift: int): Option<int> {
    if phase.Some? then Some((phase.value + shift) % 8) else None
  }

  lemma UniquePhaseMoves(counts: seq<int>, shift: int)
    requires |counts| == 8
    ensures var before, after := UniquePhase(counts), UniquePhase(Rotated(counts, shift));
            after == MovedPhase(before, shift) && NextPhase(after) == MovedPhase(NextPhase(before), shift)
  {
    var r, m := Rotated(counts, shift), MaxInt(counts);
    RotatedKeepsTotals(counts, shift);
    if CountInt(counts, m) == 1 {
      var i, j := IndexOf(counts, m), IndexOf(r, m);
      SingleOccurrence(counts, m, i, (j - shift) % 8);
      IndexMoves(i, j, shift);
    }
  }

  lemma IndexMoves(i: int, j: int, shift: int)
    requires 0 <= j < 8 && i == (j - shift) % 8
    ensures j == (i + shift) % 8
    ensures (j + 1) % 8 == ((i + 1) % 8 + shift) % 8
  {
  }

  lemma AxisOfRotation(counts: seq<int>, area: int, nt: int, shift: int)
    requires AxisMeasurement(counts, area, nt).Success?
    ensures AxisMeasurement(Rotated(counts, shift), area, nt).Success?
    ensures IsRotation(AxisMeasurement(counts, area, nt).value, AxisMeasurement(Rotated(counts, shift), area, nt).value, shift)
  {
    RotatedKeepsTotals(counts, shift);
    RotatedSupport(counts, area, shift);
    AxisOfRotated(counts, AxisMeasurement(counts, area, nt).value.score, shift);
  }

  lemma RotatedSupport(counts: seq<int>, area: int, shift: int)
    requires VoteSupport(counts, area)
    ensures VoteSupport(Rotated(counts, shift), area)
  {
    RotatedKeepsTotals(counts, shift);
  }

  lemma AxisOfRotated(counts: seq<int>, score: Option<real>, shift: int)
    requires |counts| == 8
    ensures IsRotation(AxisOf(counts, score), AxisOf(Rotated(counts, shift), score), shift)
  {
    RotatedKeepsTotals(counts, shift);
    UniquePhaseMoves(counts, shift);
  }

  /** Sliding the same luminance along x rotates the x counts and phases by the shift; the
      scores, the y axis and the flag do not move. */
  lemma ShiftInvariance(luminance: Raster, region: Region, nt: int, shift: int)
    requires MeasureWindow(luminance, region, nt).Success?
    ensures var moved := MeasureWindow(luminance, region.(x := region.x + shift), nt);
            var g := MeasureWindow(luminance, region, nt).value;
            && moved.Success?
            && IsRotation(g.x, moved.value.x, shift)
            && moved.value.y == g.y && moved.value.flag == g.flag && moved.value.area == g.area
  {
    MeasureXMoves(luminance, region.width, region.height, region.x, nt, shift);
  }

  /** Where there is a measurement before, there is one after, and it is the rotated one. */
  ghost predicate Rotates(before: Result<Axis>, after: Result<Axis>, shift: int) {
    before.Success? ==> after.Success? && |before.value.counts| == 8 && IsRotation(before.value, after.value, shift)
  }

  lemma MeasureXMoves(luminance: Raster, width: nat, height: nat, origin: int, nt: int, shift: int)
    requires HasShape(luminance, height + 3, width + 3)
    ensures Rotates(MeasureX(luminance, width, height, origin, nt), MeasureX(luminance, width, height, origin + shift, nt), shift)
  {
    AxisMoves(LinesX(luminance, height, width), origin, shift, width * height, nt);
  }

  lemma AxisMoves(lines: seq<seq<bool>>, x: int, shift: int, area: int, nt: int)
    ensures Rotates(AxisMeasurement(PhaseCounts(lines, x), area, nt),
                    AxisMeasurement(PhaseCounts(lines, x + shift), area, nt), shift)
  {
    ShiftRotatesCounts(lines, x, shift);
    if AxisMeasurement(PhaseCounts(lines, x), area, nt).Success? {
      AxisOfRotation(PhaseCounts(lines, x), area, nt, shift);
    }
  }
}
