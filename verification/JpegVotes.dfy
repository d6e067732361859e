/**
  scripts/research/jpeg_measurements.py, grid_window: which cells vote, in the luminance values
  themselves, and what a raster shows that was coded in 8 x 8 blocks.
 */
module JpegVotes {
  import opened Wrappers
  import opened Integers
  import opened Binomial
  import opened JpegGrid

  /** |a| > |b| */
  ghost predicate Outweighs(a: real, b: real) {
    if a >= 0.0 then -a < b < a else a < b < -a
  }

  /** By how much the step between two columns changes from one row to the next. */
  ghost function Mixed(luminance: Raster, row: int, column: int): real
    requires 0 <= row && row + 1 < |luminance|
    requires 0 <= column && column + 1 < |luminance[row]| && column + 1 < |luminance[row + 1]|
  {
    (luminance[row + 1][column + 1] - luminance[row + 1][column]) - (luminance[row][column + 1] - luminance[row][column])
  }

  /** The cell's difference is larger than those of both neighbours in its row. */
  ghost predicate PeakInRow(luminance: Raster, h: nat, w: nat, row: int, column: int)
    requires HasShape(luminance, h + 3, w + 3) && 0 <= row < h && 0 <= column < w
  {
    && Outweighs(Mixed(luminance, row + 1, column + 1), Mixed(luminance, row + 1, column))
    && Outweighs(Mixed(luminance, row + 1, column + 1), Mixed(luminance, row + 1, column + 2))
  }

  ghost predicate PeakInColumn(luminance: Raster, h: nat, w: nat, row: int, column: int)
    requires HasShape(luminance, h + 3, w + 3) && 0 <= row < h && 0 <= column < w
  {
    && Outweighs(Mixed(luminance, row + 1, column + 1), Mixed(luminance, row, column + 1))
    && Outweighs(Mixed(luminance, row + 1, column + 1), Mixed(luminance, row + 2, column + 1))
  }

  lemma CrossIsMixed(luminance: Raster, row: nat, column: nat, other: nat, beside: nat)
    requires row + 1 < |luminance| && other + 1 < |luminance|
    requires column + 1 < |luminance[row]| && column + 1 < |luminance[row + 1]|
    requires beside + 1 < |luminance[other]| && beside + 1 < |luminance[other + 1]|
    ensures Cross(luminance, row, column) > Cross(luminance, other, beside)
       <==> Outweighs(Mixed(luminance, row, column), Mixed(luminance, other, beside))
  {
  }

  lemma VoteIsPeak(luminance: Raster, h: nat, w: nat, row: nat, column: nat)
    requires HasShape(luminance, h + 3, w + 3) && row < h && column < w
    ensures VoteX(luminance, h, w, row, column) <==> PeakInRow(luminance, h, w, row, column)
    ensures VoteY(luminance, h, w, row, column) <==> PeakInColumn(luminance, h, w, row, column)
  {
    CrossIsMixed(luminance, row + 1, column + 1, row + 1, column);
    CrossIsMixed(luminance, row + 1, column + 1, row + 1, column + 2);
    CrossIsMixed(luminance, row + 1, column + 1, row, column + 1);
    CrossIsMixed(luminance, row + 1, column + 1, row + 2, column + 1);
  }

  // ----- counting cells

  ghost function LineCells(line: seq<bool>, i: int): (s: set<(int, int)>)
    ensures forall p :: p in s <==> p.0 == i && 0 <= p.1 < |line| && line[p.1]
    ensures |s| == Count(line)
  {
    if line == [] then {}
    else
      var n := |line| - 1;
      LineCells(line[..n], i) + if line[n] then {(i, n)} else {}
  }

  ghost predicate InResidue(lines: seq<seq<bool>>, residue: int, p: (int, int)) {
    0 <= p.0 < |lines| && 0 <= p.1 < |lines[p.0]| && lines[p.0][p.1] && p.0 % 8 == residue
  }

  ghost function ResidueCells(lines: seq<seq<bool>>, residue: int): (s: set<(int, int)>)
    ensures forall p :: p in s <==> InResidue(lines, residue, p)
    ensures |s| == ResidueVotes(lines, residue)
  {
    if lines == [] then {}
    else
      var n := |lines| - 1;
      var before, here := ResidueCells(lines[..n], residue), LineCells(lines[n], n);
      DisjointLines(before, here, n);
      if n % 8 == residue then before + here else before
  }

  lemma DisjointLines(before: set<(int, int)>, here: set<(int, int)>, n: int)
    requires forall p :: p in before ==> p.0 < n
    requires forall p :: p in here ==> p.0 == n
    ensures before !! here
  {
  }

  /** The cell (column, row) votes on the x axis, in this phase. */
  ghost predicate VotesInPhaseX(luminance: Raster, h: nat, w: nat, origin: int, phase: int, p: (int, int))
    requires HasShape(luminance, h + 3, w + 3)
  {
    0 <= p.0 < w && 0 <= p.1 < h && (origin + p.0) % 8 == phase && PeakInRow(luminance, h, w, p.1, p.0)
  }

  lemma MembersOfPhaseX(luminance: Raster, h: nat, w: nat, origin: int, phase: int, p: (int, int))
    requires HasShape(luminance, h + 3, w + 3) && 0 <= phase < 8
    ensures InResidue(LinesX(luminance, h, w), (phase - origin) % 8, p) <==> VotesInPhaseX(luminance, h, w, origin, phase, p)
  {
    if 0 <= p.0 < w && 0 <= p.1 < h {
      VoteIsPeak(luminance, h, w, p.1, p.0);
      PhaseOfLine(p.0, origin, phase);
    }
  }

  /** The voting cells of one x phase: the phase count is their number. */
  ghost function CellsOfPhaseX(luminance: Raster, h: nat, w: nat, origin: int, phase: int): (s: set<(int, int)>)
    requires HasShape(luminance, h + 3, w + 3) && 0 <= phase < 8
    ensures forall p :: p in s <==> VotesInPhaseX(luminance, h, w, origin, phase, p)
    ensures PhaseCounts(LinesX(luminance, h, w), origin)[phase] == |s|
  {
    var lines, residue := LinesX(luminance, h, w), (phase - origin) % 8;
    assert forall p :: InResidue(lines, residue, p) <==> VotesInPhaseX(luminance, h, w, origin, phase, p) by {
      forall p
        ensures InResidue(lines, residue, p) <==> VotesInPhaseX(luminance, h, w, origin, phase, p)
      {
        MembersOfPhaseX(luminance, h, w, origin, phase, p);
      }
    }
    ResidueCells(lines, residue)
  }

  /** The cell (row, column) votes on the y axis, in this phase. */
  ghost predicate VotesInPhaseY(luminance: Raster, h: nat, w: nat, origin: int, phase: int, p: (int, int))
    requires HasShape(luminance, h + 3, w + 3)
  {
    0 <= p.0 < h && 0 <= p.1 < w && (origin + p.0) % 8 == phase && PeakInColumn(luminance, h, w, p.0, p.1)
  }

  lemma MembersOfPhaseY(luminance: Raster, h: nat, w: nat, origin: int, phase: int, p: (int, int))
    requires HasShape(luminance, h + 3, w + 3) && 0 <= phase < 8
    ensures InResidue(LinesY(luminance, h, w), (phase - origin) % 8, p) <==> VotesInPhaseY(luminance, h, w, origin, phase, p)
  {
    if 0 <= p.0 < h && 0 <= p.1 < w {
      VoteIsPeak(luminance, h, w, p.0, p.1);
      PhaseOfLine(p.0, origin, phase);
    }
  }

  /** The voting cells of one y phase: the phase count is their number. */
  ghost function CellsOfPhaseY(luminance: Raster, h: nat, w: nat, origin: int, phase: int): (s: set<(int, int)>)
    requires HasShape(luminance, h + 3, w + 3) && 0 <= phase < 8
    ensures forall p :: p in s <==> VotesInPhaseY(luminance, h, w, origin, phase, p)
    ensures PhaseCounts(LinesY(luminance, h, w), origin)[phase] == |s|
  {
    var lines, residue := LinesY(luminance, h, w), (phase - origin) % 8;
    assert forall p :: InResidue(lines, residue, p) <==> VotesInPhaseY(luminance, h, w, origin, phase, p) by {
      forall p
        ensures InResidue(lines, residue, p) <==> VotesInPhaseY(luminance, h, w, origin, phase, p)
      {
        MembersOfPhaseY(luminance, h, w, origin, phase, p);
      }
    }
    ResidueCells(lines, residue)
  }

  // ----- what an axis reports

  /** The totals and fractions of a measured axis. */
  lemma AxisTotals(counts: seq<int>, area: int, nt: int)
    requires AxisMeasurement(counts, area, nt).Success?
    ensures var a := AxisMeasurement(counts, area, nt).value;
            && a.counts == counts && |counts| == 8 && a.n == SumInts(counts)
            && a.m in counts && (forall i :: 0 <= i < 8 ==> counts[i] <= a.m)
            && a.fractions == Fractions(counts, a.n) && a.maximumFraction == Fraction(a.m, a.n)
  {
    assert forall i :: 0 <= i < 8 ==> counts[i] in counts;
  }

  /** Fractions are shares of the votes; without votes there are none. */
  lemma FractionsAreShares(counts: seq<int>, n: int)
    ensures Fractions(counts, n).None? <==> n == 0
    ensures n != 0 ==> |Fractions(counts, n).value| == |counts|
    ensures n != 0 ==> forall i :: 0 <= i < |counts| ==>
              Fractions(counts, n).value[i] * n as real == counts[i] as real && Fraction(counts[i], n) == Some(Fractions(counts, n).value[i])
  {
    if n != 0 {
      forall i | 0 <= i < |counts|
        ensures Fractions(counts, n).value[i] * n as real == counts[i] as real
      {
        QuotientBack(counts[i] as real, n as real);
      }
    }
  }

  lemma QuotientBack(a: real, b: real)
    requires b != 0.0
    ensures a / b * b == a
  {
  }

  /** The boundary phase is the one phase with more votes than any other, where there is one; the
      block phase follows it. */
  lemma AxisPhases(counts: seq<int>, area: int, nt: int)
    requires AxisMeasurement(counts, area, nt).Success?
    ensures var a := AxisMeasurement(counts, area, nt).value;
            && |counts| == 8 && (forall k :: a.boundaryPhase == Some(k) <==> StrongestAlone(counts, k))
            && a.blockPhase == if a.boundaryPhase.None? then None
                               else Some(if a.boundaryPhase.value == 7 then 0 else a.boundaryPhase.value + 1)
  {
    forall k
      ensures UniquePhase(counts) == Some(k) <==> StrongestAlone(counts, k)
    {
      UniqueIsStrongest(counts, k);
    }
    if UniquePhase(counts).Some? {
      assert StrongestAlone(counts, UniquePhase(counts).value);
    }
  }

  /** 10^ell: nt times the chance of at least m/2 successes in area/16 trials at the rate of votes. */
  lemma AxisScores(counts: seq<int>, area: int, nt: int)
    requires AxisMeasurement(counts, area, nt).Success?
    ensures var a := AxisMeasurement(counts, area, nt).value;
            && (a.score.None? <==> a.n == 0)
            && (a.n != 0 ==>
                  && a.m >= 0 && area > 0 && area % 16 == 0
                  && a.score.value == nt as real * Tail(area / 16, (a.m + 1) / 2, a.n as real / area as real))
  {
    AxisMeasurementReturns(counts, area, nt);
    assert forall i :: 0 <= i < 8 ==> counts[i] in counts;
    SumNonNegative(counts);
  }

  /** Phase k has more votes than any other. */
  ghost predicate StrongestAlone(counts: seq<int>, k: int)
    requires |counts| == 8
  {
    0 <= k < 8 && forall i :: 0 <= i < 8 && i != k ==> counts[i] < counts[k]
  }

  lemma {:induction false} CountAbsent(s: seq<int>, v: int)
    requires v !in s
    ensures CountInt(s, v) == 0
  {
    if s == [] {
    } else {
      CountAbsent(s[1..], v);
    }
  }

  lemma {:induction false} CountOnce(s: seq<int>, v: int, k: nat)
    requires k < |s| && s[k] == v && forall i :: 0 <= i < |s| && i != k ==> s[i] != v
    ensures CountInt(s, v) == 1
  {
    if k == 0 {
      CountAbsent(s[1..], v);
    } else {
      CountOnce(s[1..], v, k - 1);
    }
  }

  lemma UniqueIsStrongest(counts: seq<int>, k: int)
    requires |counts| == 8
    ensures UniquePhase(counts) == Some(k) <==> StrongestAlone(counts, k)
  {
    var m := MaxInt(counts);
    assert forall i :: 0 <= i < 8 ==> counts[i] in counts;
    if UniquePhase(counts) == Some(k) {
      forall i | 0 <= i < 8 && counts[i] == m
        ensures i == k
      {
        SingleOccurrence(counts, m, i, k);
      }
    }
    if StrongestAlone(counts, k) {
      CountOnce(counts, m, k);
    }
  }

  // ----- a raster coded in blocks

  /** The support of a window at (x, y) is flat up to steps between 8 x 8 tiles: the difference is
      nonzero at most where a tile corner lies, in x phase px and y phase py. */
  ghost predicate OnlyAtCorners(luminance: Raster, h: nat, w: nat, x: int, y: int, px: int, py: int)
    requires HasShape(luminance, h + 3, w + 3)
  {
    forall row, column :: 0 <= row < h + 2 && 0 <= column < w + 2 && Mixed(luminance, row, column) != 0.0 ==>
      (x + column - 1) % 8 == px && (y + row - 1) % 8 == py
  }

  /** A tile corner shows at this cell of the window. */
  ghost predicate CornerAt(luminance: Raster, h: nat, w: nat, row: int, column: int)
    requires HasShape(luminance, h + 3, w + 3)
  {
    0 <= row < h && 0 <= column < w && Mixed(luminance, row + 1, column + 1) != 0.0
  }

  lemma NextResidue(v: int)
    ensures (v + 1) % 8 != v % 8 && (v - 1) % 8 != v % 8
  {
  }

  lemma CornersArePeaks(luminance: Raster, h: nat, w: nat, x: int, y: int, px: int, py: int, row: int, column: int)
    requires HasShape(luminance, h + 3, w + 3) && OnlyAtCorners(luminance, h, w, x, y, px, py)
    requires 0 <= row < h && 0 <= column < w
    ensures PeakInRow(luminance, h, w, row, column) <==> CornerAt(luminance, h, w, row, column)
    ensures PeakInColumn(luminance, h, w, row, column) <==> CornerAt(luminance, h, w, row, column)
    ensures CornerAt(luminance, h, w, row, column) ==> (x + column) % 8 == px && (y + row) % 8 == py
  {
    NextResidue(x + column);
    NextResidue(y + row);
    if CornerAt(luminance, h, w, row, column) {
      assert (x + (column + 1) - 1) % 8 == px && (y + (row + 1) - 1) % 8 == py;
      assert Mixed(luminance, row + 1, column) == 0.0 && Mixed(luminance, row + 1, column + 2) == 0.0;
      assert Mixed(luminance, row, column + 1) == 0.0 && Mixed(luminance, row + 2, column + 1) == 0.0;
    }
  }

  /** Every corner in the window votes once on each axis, in the phase of the tiles, and nothing
      else votes. */
  lemma BlockedVotes(luminance: Raster, h: nat, w: nat, x: int, y: int, px: int, py: int, phase: int)
    requires HasShape(luminance, h + 3, w + 3) && OnlyAtCorners(luminance, h, w, x, y, px, py) && 0 <= phase < 8
    ensures forall p :: p in CellsOfPhaseX(luminance, h, w, x, phase) <==> phase == px && CornerAt(luminance, h, w, p.1, p.0)
    ensures forall p :: p in CellsOfPhaseY(luminance, h, w, y, phase) <==> phase == py && CornerAt(luminance, h, w, p.0, p.1)
  {
    forall p: (int, int)
      ensures VotesInPhaseX(luminance, h, w, x, phase, p) <==> phase == px && CornerAt(luminance, h, w, p.1, p.0)
    {
      if 0 <= p.0 < w && 0 <= p.1 < h {
        CornersArePeaks(luminance, h, w, x, y, px, py, p.1, p.0);
      }
    }
    forall p: (int, int)
      ensures VotesInPhaseY(luminance, h, w, y, phase, p) <==> phase == py && CornerAt(luminance, h, w, p.0, p.1)
    {
      if 0 <= p.0 < h && 0 <= p.1 < w {
        CornersArePeaks(luminance, h, w, x, y, px, py, p.0, p.1);
      }
    }
  }

  /** A window on block-coded tiles reports the phases of the tiles. */
  lemma BlockedPhases(luminance: Raster, region: Region, nt: int, px: int, py: int, row: int, column: int)
    requires MeasureWindow(luminance, region, nt).Success?
    requires OnlyAtCorners(luminance, region.height, region.width, region.x, region.y, px, py)
    requires CornerAt(luminance, region.height, region.width, row, column)
    ensures var g := MeasureWindow(luminance, region, nt).value;
            && g.x.boundaryPhase == Some(px) && g.y.boundaryPhase == Some(py)
            && g.x.n == g.x.m == g.x.counts[px] > 0 && g.y.n == g.y.m == g.y.counts[py] > 0
  {
    var w, h := region.width, region.height;
    var cx, cy := PhaseCounts(LinesX(luminance, h, w), region.x), PhaseCounts(LinesY(luminance, h, w), region.y);
    CornersArePeaks(luminance, h, w, region.x, region.y, px, py, row, column);
    forall phase | 0 <= phase < 8
      ensures phase == px ==> cx[phase] > 0
      ensures phase != px ==> cx[phase] == 0
      ensures phase == py ==> cy[phase] > 0
      ensures phase != py ==> cy[phase] == 0
    {
      BlockedVotes(luminance, h, w, region.x, region.y, px, py, phase);
      CountOfPhase(CellsOfPhaseX(luminance, h, w, region.x, phase), (column, row));
      CountOfPhase(CellsOfPhaseY(luminance, h, w, region.y, phase), (row, column));
    }
    OnePhase(cx, w * h, nt, px);
    OnePhase(cy, w * h, nt, py);
  }

  lemma CountOfPhase(cells: set<(int, int)>, p: (int, int))
    ensures p in cells ==> |cells| > 0
    ensures (forall q :: q !in cells) ==> |cells| == 0
  {
    if forall q :: q !in cells {
      assert cells == {};
    }
  }

  lemma OnePhase(counts: seq<int>, area: int, nt: int, k: int)
    requires AxisMeasurement(counts, area, nt).Success? && |counts| == 8
    requires 0 <= k < 8 && counts[k] > 0 && forall i :: 0 <= i < 8 && i != k ==> counts[i] == 0
    ensures var a := AxisMeasurement(counts, area, nt).value;
            a.boundaryPhase == Some(k) && a.n == a.m == counts[k] && a.counts == counts
  {
    AxisPhases(counts, area, nt);
    AxisTotals(counts, area, nt);
    assert StrongestAlone(counts, k);
    var zeros := counts[k := 0];
    SumOfUpdated(counts, k, 0);
    SumOfZeros(zeros);
  }

  /** A window is measured when the raster has its support and both axes can be. */
  lemma WindowMeasured(luminance: Raster, region: Region, nt: int)
    ensures MeasureWindow(luminance, region, nt).Success? <==>
              && region.width >= 0 && region.height >= 0 && HasShape(luminance, region.height + 3, region.width + 3)
              && MeasureX(luminance, region.width, region.height, region.x, nt).Success?
              && MeasureY(luminance, region.width, region.height, region.y, nt).Success?
  {
  }

  /** What a window reports besides its axes: where it lies, what it needed, and the flag, raised
      when both axes have one strongest phase and a score below 1. */
  lemma WindowReports(luminance: Raster, region: Region, nt: int)
    requires MeasureWindow(luminance, region, nt).Success?
    ensures var g := MeasureWindow(luminance, region, nt).value;
            && g.centers == (region.x, region.y, region.x + region.width, region.y + region.height)
            && g.support == (region.x - 1, region.y - 1, region.x + region.width + 2, region.y + region.height + 2)
            && g.area == region.width * region.height
            && g.x == MeasureX(luminance, region.width, region.height, region.x, nt).value
            && g.y == MeasureY(luminance, region.width, region.height, region.y, nt).value
    ensures FlagFollows(MeasureWindow(luminance, region, nt).value)
  {
    WindowMeasured(luminance, region, nt);
    AssembledReports(region, MeasureX(luminance, region.width, region.height, region.x, nt).value,
                     MeasureY(luminance, region.width, region.height, region.y, nt).value);
  }

  lemma AssembledReports(region: Region, x: Axis, y: Axis)
    ensures var g := Assemble(region, x, y);
            && g.centers == (region.x, region.y, region.x + region.width, region.y + region.height)
            && g.support == (region.x - 1, region.y - 1, region.x + region.width + 2, region.y + region.height + 2)
            && g.area == region.width * region.height && g.x == x && g.y == y && FlagFollows(g)
  {
  }

  ghost predicate FlagFollows(g: GridWindow) {
    g.flag <==> && g.x.blockPhase.Some? && g.y.blockPhase.Some? && g.x.score.Some? && g.y.score.Some?
                && g.x.score.value < 1.0 && g.y.score.value < 1.0
  }
}
