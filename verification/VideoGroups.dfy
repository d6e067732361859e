/**
  Groups of four retained frames and the integer distances between them: _ticks, _distances of
  src/fakedetector/analyzers/_video_experimental.py and Group, Pair of
  scripts/diploma_vrc_targeted_research.py.
 */
module VideoGroups {
  import opened Wrappers
  import opened Integers

  const BLOCKS: nat := 432
  const FRAMES: nat := 4
  const COLOR_DENOMINATOR: int := 440640
  const DELTA_DENOMINATOR: int := 660960

  type Frame = seq<int>

  /** first and last are the properties of that name: the first and last tick in seconds, exactly. */
  datatype RawGroup = Group(
    stream: int,
    region: int,
    start: int,
    ticks: seq<int>,
    first: real,
    last: real,
    geometry: seq<int>,
    values: seq<Frame>)
  {
    function Key(): (int, int, int) {
      (stream, region, start)
    }
  }

  predicate ValidFrame(frame: Frame) {
    |frame| == BLOCKS && forall i :: 0 <= i < |frame| ==> 0 <= frame[i] <= 255
  }

  /** Four frames on the descriptor grid that take some time. */
  predicate Valid(g: RawGroup) {
    g.first < g.last && |g.values| == FRAMES && forall f :: 0 <= f < FRAMES ==> ValidFrame(g.values[f])
  }

  type Group = g: RawGroup | Valid(g)
    witness Group(0, 0, 0, [], 0.0, 1.0, [], seq(FRAMES, f => seq(BLOCKS, i => 0)))

  /** One timing record: the tick and whether it is known (bit 0 of the flags). */
  datatype Timing = Timing(tick: int, flags: nat)

  /** _ticks(rows, start, length): every tick known and strictly increasing, or nothing. */
  function Ticks(rows: seq<Timing>, start: nat, length: nat): Option<seq<int>>
    requires start + length <= |rows|
  {
    var selected := rows[start..start + length];
    if exists i :: 0 <= i < |selected| && selected[i].flags % 2 == 0 then None
    else if exists i :: 0 < i < |selected| && selected[i - 1].tick >= selected[i].tick then None
    else Some(seq(length, i requires 0 <= i < length => selected[i].tick))
  }

  /** A tick in seconds of its time base. */
  function Seconds(tick: int, base: real): real {
    tick as real * base
  }

  /** Every tick of the stretch is known, and each is before the next. */
  predicate Usable(rows: seq<Timing>, start: nat, length: nat)
    requires start + length <= |rows|
  {
    && (forall i :: start <= i < start + length ==> rows[i].flags % 2 == 1)
    && (forall i :: start < i < start + length ==> rows[i - 1].tick < rows[i].tick)
  }

  lemma TicksUsable(rows: seq<Timing>, start: nat, length: nat)
    requires start + length <= |rows|
    ensures Ticks(rows, start, length).Some? <==> Usable(rows, start, length)
    ensures Usable(rows, start, length) ==>
              && |Ticks(rows, start, length).value| == length
              && forall i :: 0 <= i < length ==> Ticks(rows, start, length).value[i] == rows[start + i].tick
  {
    var selected := rows[start..start + length];
    assert forall i :: 0 <= i < length ==> selected[i] == rows[start + i];
    assert forall i :: start <= i < start + length ==> rows[i] == selected[i - start];
  }

  /** The group starting at one frame of a window: there is one exactly when its ticks are usable,
      and it spans the time from its first to its last tick. */
  function GroupAt(stream: int, region: int, start: nat, base: real, geometry: seq<int>,
                   rows: seq<Timing>, descriptors: seq<Frame>): (g: Option<Group>)
    requires start + FRAMES <= |rows| && start + FRAMES <= |descriptors|
    requires base > 0.0 && forall f :: start <= f < start + FRAMES ==> ValidFrame(descriptors[f])
    ensures g.Some? <==> Usable(rows, start, FRAMES)
    ensures g.Some? ==> g.value.Key() == (stream, region, start) && g.value.geometry == geometry
    ensures g.Some? ==> g.value.values == descriptors[start..start + FRAMES]
    ensures g.Some? ==> |g.value.ticks| == FRAMES && forall i :: 0 <= i < FRAMES ==> g.value.ticks[i] == rows[start + i].tick
    ensures g.Some? ==> g.value.first == Seconds(rows[start].tick, base)
    ensures g.Some? ==> g.value.last == Seconds(rows[start + FRAMES - 1].tick, base)
  {
    TicksUsable(rows, start, FRAMES);
    match Ticks(rows, start, FRAMES)
    case None => None
    case Some(ticks) =>
      UsableEnds(rows, start, base);
      Some(Group(stream, region, start, ticks, Seconds(ticks[0], base), Seconds(ticks[3], base), geometry,
                 descriptors[start..start + FRAMES]))
  }

  lemma UsableEnds(rows: seq<Timing>, start: nat, base: real)
    requires start + FRAMES <= |rows| && Usable(rows, start, FRAMES) && base > 0.0
    ensures Seconds(rows[start].tick, base) < Seconds(rows[start + FRAMES - 1].tick, base)
  {
    assert rows[start].tick < rows[start + 1].tick < rows[start + 2].tick < rows[start + 3].tick;
  }

  // ----- absolute sums

  function Norm(frame: Frame): int {
    if frame == [] then 0 else Norm(frame[..|frame| - 1]) + Abs(frame[|frame| - 1])
  }

  function Minus(a: Frame, b: Frame): (r: Frame)
    requires |a| == |b|
    ensures |r| == |a|
  {
    seq(|a|, i requires 0 <= i < |a| => a[i] - b[i])
  }

  predicate Grid(frames: seq<Frame>, width: nat) {
    forall f :: 0 <= f < |frames| ==> |frames[f]| == width
  }

  /** np.abs(x).sum() over all frames */
  function TotalNorm(frames: seq<Frame>): int {
    if frames == [] then 0 else TotalNorm(frames[..|frames| - 1]) + Norm(frames[|frames| - 1])
  }

  function MinusAll(a: seq<Frame>, b: seq<Frame>, width: nat): (r: seq<Frame>)
    requires |a| == |b| && Grid(a, width) && Grid(b, width)
    ensures |r| == |a| && Grid(r, width)
  {
    seq(|a|, f requires 0 <= f < |a| => Minus(a[f], b[f]))
  }

  /** np.diff(frames, axis=0) */
  function Diff(frames: seq<Frame>, width: nat): (r: seq<Frame>)
    requires |frames| > 0 && Grid(frames, width)
    ensures |r| == |frames| - 1 && Grid(r, width)
  {
    seq(|frames| - 1, f requires 0 <= f < |frames| - 1 => Minus(frames[f + 1], frames[f]))
  }

  datatype Distances = Distances(color: int, delta: int, temporalA: int, temporalB: int)

  function DistancesOf(a: Group, b: Group): Distances
  {
    var da, db := Diff(a.values, BLOCKS), Diff(b.values, BLOCKS);
    Distances(TotalNorm(MinusAll(a.values, b.values, BLOCKS)), TotalNorm(MinusAll(da, db, BLOCKS)),
              TotalNorm(da), TotalNorm(db))
  }

  /** Every entry counts with its magnitude, once. */
  lemma {:induction false} NormByEntries(a: Frame, b: Frame)
    ensures Norm(a + b) == Norm(a) + Norm(b)
    ensures |a| == 1 ==> Norm(a) == if a[0] < 0 then -a[0] else a[0]
  {
    if b == [] {
      assert a + b == a;
      assert |a| == 1 ==> Norm(a[..0]) == 0;
    } else {
      assert (a + b)[..|a + b| - 1] == a + b[..|b| - 1];
      NormByEntries(a, b[..|b| - 1]);
    }
  }

  /** a - b, entry by entry */
  ghost function Difference(a: Frame, b: Frame): (r: Frame)
    requires |a| == |b|
    ensures |r| == |a| && forall i :: 0 <= i < |a| ==> r[i] == a[i] - b[i]
  {
    Minus(a, b)
  }

  lemma NormOfFour(frames: seq<Frame>)
    ensures |frames| == 3 ==> TotalNorm(frames) == Norm(frames[0]) + Norm(frames[1]) + Norm(frames[2])
    ensures |frames| == 4 ==> TotalNorm(frames) == Norm(frames[0]) + Norm(frames[1]) + Norm(frames[2]) + Norm(frames[3])
  {
    if |frames| == 3 || |frames| == 4 {
      assert frames[..3][..2] == frames[..2] && frames[..2][..1] == frames[..1] && frames[..1][..0] == [];
      assert TotalNorm(frames[..1]) == Norm(frames[0]);
      assert TotalNorm(frames[..2]) == Norm(frames[0]) + Norm(frames[1]);
      assert TotalNorm(frames[..3]) == Norm(frames[0]) + Norm(frames[1]) + Norm(frames[2]);
      assert |frames| == 3 ==> frames[..3] == frames;
    }
  }

  /** The color distance adds up the four frames against each other; the temporal distance the three
      steps against each other; the temporal energies the steps themselves. */
  lemma DistancesAreSums(a: Group, b: Group)
    ensures DistancesOf(a, b).color
         == Norm(Difference(a.values[0], b.values[0])) + Norm(Difference(a.values[1], b.values[1]))
            + Norm(Difference(a.values[2], b.values[2])) + Norm(Difference(a.values[3], b.values[3]))
    ensures DistancesOf(a, b).delta
         == Norm(Difference(StepOf(a, 0), StepOf(b, 0))) + Norm(Difference(StepOf(a, 1), StepOf(b, 1)))
            + Norm(Difference(StepOf(a, 2), StepOf(b, 2)))
    ensures DistancesOf(a, b).temporalA == Norm(StepOf(a, 0)) + Norm(StepOf(a, 1)) + Norm(StepOf(a, 2))
    ensures DistancesOf(a, b).temporalB == Norm(StepOf(b, 0)) + Norm(StepOf(b, 1)) + Norm(StepOf(b, 2))
  {
    var da, db := Diff(a.values, BLOCKS), Diff(b.values, BLOCKS);
    NormOfFour(MinusAll(a.values, b.values, BLOCKS));
    NormOfFour(MinusAll(da, db, BLOCKS));
    NormOfFour(da);
    NormOfFour(db);
  }

  /** The change from frame f to the next. */
  ghost function StepOf(g: Group, f: nat): (r: Frame)
    requires f < 3
    ensures |r| == 432 && forall i :: 0 <= i < 432 ==> r[i] == g.values[f + 1][i] - g.values[f][i]
  {
    Minus(g.values[f + 1], g.values[f])
  }

  // ----- a norm on frames

  lemma {:induction false} NormBounds(frame: Frame, bound: int)
    requires forall i :: 0 <= i < |frame| ==> -bound <= frame[i] <= bound
    ensures 0 <= Norm(frame) <= bound * |frame|
  {
    if frame == [] {
    } else {
      var k := |frame| - 1;
      NormBounds(frame[..k], bound);
      assert bound * |frame| == bound * k + bound;
    }
  }

  lemma {:induction false} NormTriangle(a: Frame, b: Frame)
    requires |a| == |b|
    ensures Norm(Minus(a, b)) <= Norm(a) + Norm(b)
    ensures Norm(a) <= Norm(b) + Norm(Minus(a, b))
    ensures Norm(Minus(a, b)) == Norm(Minus(b, a))
  {
    if a == [] {
    } else {
      var k := |a| - 1;
      NormTriangle(a[..k], b[..k]);
      assert Minus(a, b)[..k] == Minus(a[..k], b[..k]);
      assert Minus(b, a)[..k] == Minus(b[..k], a[..k]);
    }
  }

  lemma {:induction false} NormZero(frame: Frame)
    ensures Norm(frame) >= 0
    ensures Norm(frame) == 0 <==> forall i :: 0 <= i < |frame| ==> frame[i] == 0
  {
    if frame == [] {
    } else {
      var k := |frame| - 1;
      NormZero(frame[..k]);
      if Norm(frame) == 0 {
        assert forall i :: 0 <= i < k ==> frame[..k][i] == frame[i];
      }
    }
  }

  lemma MinusTelescopes(a: Frame, b: Frame, c: Frame)
    requires |a| == |b| == |c|
    ensures Minus(Minus(a, c), Minus(b, c)) == Minus(a, b)
  {
  }

  lemma NormOfDetour(a: Frame, b: Frame, c: Frame)
    requires |a| == |b| == |c|
    ensures Norm(Minus(a, c)) <= Norm(Minus(a, b)) + Norm(Minus(b, c))
  {
    MinusTelescopes(a, b, c);
    NormTriangle(Minus(a, c), Minus(b, c));
  }

  // ----- lifted to lists of frames

  lemma {:induction false} TotalOfBounded(frames: seq<Frame>, each: int)
    requires forall f :: 0 <= f < |frames| ==> 0 <= Norm(frames[f]) <= each
    ensures 0 <= TotalNorm(frames) <= each * |frames|
  {
    if frames == [] {
    } else {
      var k := |frames| - 1;
      TotalOfBounded(frames[..k], each);
      assert each * (k + 1) == each * k + each;
    }
  }

  lemma TotalBounds(frames: seq<Frame>, bound: int)
    requires Grid(frames, BLOCKS)
    requires forall f, i :: 0 <= f < |frames| && 0 <= i < |frames[f]| ==> -bound <= frames[f][i] <= bound
    ensures 0 <= TotalNorm(frames) <= bound * BLOCKS * |frames|
  {
    forall f | 0 <= f < |frames|
      ensures 0 <= Norm(frames[f]) <= bound * BLOCKS
    {
      NormBounds(frames[f], bound);
    }
    TotalOfBounded(frames, bound * BLOCKS);
  }

  /** The last frame of a difference adds its own norm. */
  lemma TotalMinusStep(a: seq<Frame>, b: seq<Frame>, width: nat)
    requires |a| == |b| > 0 && Grid(a, width) && Grid(b, width)
    ensures var k := |a| - 1;
            TotalNorm(MinusAll(a, b, width)) == TotalNorm(MinusAll(a[..k], b[..k], width)) + Norm(Minus(a[k], b[k]))
  {
    var k := |a| - 1;
    assert MinusAll(a, b, width)[..k] == MinusAll(a[..k], b[..k], width);
  }

  lemma {:induction false} TotalTriangle(a: seq<Frame>, b: seq<Frame>, width: nat)
    requires |a| == |b| && Grid(a, width) && Grid(b, width)
    ensures TotalNorm(MinusAll(a, b, width)) <= TotalNorm(a) + TotalNorm(b)
    ensures TotalNorm(a) <= TotalNorm(b) + TotalNorm(MinusAll(a, b, width))
    ensures TotalNorm(MinusAll(a, b, width)) == TotalNorm(MinusAll(b, a, width))
  {
    if a == [] {
    } else {
      var k := |a| - 1;
      TotalTriangle(a[..k], b[..k], width);
      NormTriangle(a[k], b[k]);
      TotalMinusStep(a, b, width);
      TotalMinusStep(b, a, width);
    }
  }

  lemma {:induction false} TotalOfDetour(a: seq<Frame>, b: seq<Frame>, c: seq<Frame>, width: nat)
    requires |a| == |b| == |c| && Grid(a, width) && Grid(b, width) && Grid(c, width)
    ensures TotalNorm(MinusAll(a, c, width)) <= TotalNorm(MinusAll(a, b, width)) + TotalNorm(MinusAll(b, c, width))
  {
    if a == [] {
    } else {
      var k := |a| - 1;
      TotalOfDetour(a[..k], b[..k], c[..k], width);
      NormOfDetour(a[k], b[k], c[k]);
      TotalMinusStep(a, b, width);
      TotalMinusStep(b, c, width);
      TotalMinusStep(a, c, width);
    }
  }

  lemma {:induction false} TotalZero(a: seq<Frame>, b: seq<Frame>, width: nat)
    requires |a| == |b| && Grid(a, width) && Grid(b, width)
    ensures TotalNorm(MinusAll(a, b, width)) >= 0
    ensures TotalNorm(MinusAll(a, b, width)) == 0 <==> a == b
  {
    if a == [] {
    } else {
      var k := |a| - 1;
      TotalZero(a[..k], b[..k], width);
      assert MinusAll(a, b, width)[..k] == MinusAll(a[..k], b[..k], width);
      var d := Minus(a[k], b[k]);
      NormZero(d);
      assert (forall i :: 0 <= i < |d| ==> d[i] == 0) <==> a[k] == b[k] by {
        assert forall i :: 0 <= i < |d| ==> d[i] == a[k][i] - b[k][i];
      }
      assert a == a[..k] + [a[k]] && b == b[..k] + [b[k]];
    }
  }

  /** Differencing at most doubles a total: each frame enters two differences. */
  lemma {:induction false} TotalOfDiff(frames: seq<Frame>, width: nat)
    requires |frames| > 0 && Grid(frames, width)
    ensures TotalNorm(Diff(frames, width)) + Norm(frames[0]) + Norm(frames[|frames| - 1]) <= 2 * TotalNorm(frames)
  {
    var k := |frames| - 1;
    if k == 0 {
      assert TotalNorm(frames[..0]) == 0;
    } else {
      TotalOfDiff(frames[..k], width);
      assert Diff(frames, width)[..k - 1] == Diff(frames[..k], width);
      NormTriangle(frames[k], frames[k - 1]);
    }
  }

  lemma DiffOfMinus(a: seq<Frame>, b: seq<Frame>, width: nat)
    requires |a| == |b| > 0 && Grid(a, width) && Grid(b, width)
    ensures MinusAll(Diff(a, width), Diff(b, width), width) == Diff(MinusAll(a, b, width), width)
  {
    var left, right := MinusAll(Diff(a, width), Diff(b, width), width), Diff(MinusAll(a, b, width), width);
    forall f | 0 <= f < |a| - 1
      ensures left[f] == right[f]
    {
      ExchangeMinus(a[f + 1], a[f], b[f + 1], b[f]);
    }
  }

  lemma ExchangeMinus(p: Frame, q: Frame, r: Frame, s: Frame)
    requires |p| == |q| == |r| == |s|
    ensures Minus(Minus(p, q), Minus(r, s)) == Minus(Minus(p, r), Minus(q, s))
  {
  }

  // ----- what the distances of two groups promise

  /** The denominators are reachable maxima, and the temporal distance is squeezed between the
      two temporal energies and twice the color distance. */
  lemma DistanceBounds(a: Group, b: Group)
    ensures var d := DistancesOf(a, b);
            && 0 <= d.color <= COLOR_DENOMINATOR
            && 0 <= d.delta <= DELTA_DENOMINATOR
            && 0 <= d.temporalA <= 330480 && 0 <= d.temporalB <= 330480
            && d.delta <= 2 * d.color
            && Abs(d.temporalA - d.temporalB) <= d.delta <= d.temporalA + d.temporalB
  {
    var da, db := Diff(a.values, BLOCKS), Diff(b.values, BLOCKS);
    var c := MinusAll(a.values, b.values, BLOCKS);
    TotalBounds(c, 255);
    TotalBounds(da, 255);
    TotalBounds(db, 255);
    TotalTriangle(da, db, BLOCKS);
    TotalTriangle(db, da, BLOCKS);
    DiffOfMinus(a.values, b.values, BLOCKS);
    TotalOfDiff(c, BLOCKS);
    NormZero(c[0]);
    NormZero(c[3]);
    TotalZero(da, db, BLOCKS);
  }

  /** The color distance is a metric on the frame contents. */
  lemma ColorIsMetric(a: Group, b: Group, c: Group)
    ensures DistancesOf(a, b).color == 0 <==> a.values == b.values
    ensures DistancesOf(a, b).color == DistancesOf(b, a).color
    ensures DistancesOf(a, c).color <= DistancesOf(a, b).color + DistancesOf(b, c).color
  {
    TotalZero(a.values, b.values, BLOCKS);
    TotalTriangle(a.values, b.values, BLOCKS);
    TotalOfDetour(a.values, b.values, c.values, BLOCKS);
  }
}
