/**
  The groups of all decoded windows, twice: the loop of
  src/fakedetector/analyzers/_video_experimental.py, which also reports the starts it passes over,
  and groups_from_request of scripts/diploma_vrc_targeted_research.py, with its own test of the
  ticks. On top of both, the whole reproduction from windows on.
 */
module VideoWindows {
  import opened Wrappers
  import opened VideoGroups
  import opened BlockDescriptor
  import opened AlignedRuns
  import opened Lists
  import VideoCorrespondence

  /** A dense window: its stream and region, its sizes, its timing records and its frames. */
  datatype RawWindow = Window(
    stream: int,
    region: int,
    base: real,
    nativeWidth: int,
    nativeHeight: int,
    height: nat,
    width: nat,
    timing: seq<Timing>,
    frames: seq<Image>)

  /** One timing record per frame, and RGB frames of one size. */
  ghost predicate Decoded(w: RawWindow) {
    && w.base > 0.0 && w.frames != [] && |w.timing| == |w.frames|
    && forall f :: 0 <= f < |w.frames| ==>
         |w.frames[f]| == w.height && Pixels(w.frames[f], w.width) && EightBit(w.frames[f])
  }

  type DenseWindow = w: RawWindow | Decoded(w) witness Window(0, 0, 1.0, 1, 1, 0, 0, [Timing(0, 1)], [[]])

  predicate TooSmall(w: DenseWindow) {
    w.height < ROWS || w.width < COLUMNS
  }

  function DescriptorOf(frame: Image, width: nat): (r: Frame)
    requires Pixels(frame, width) && EightBit(frame) && |frame| >= ROWS && width >= COLUMNS
    ensures ValidFrame(r)
  {
    var r := seq(BLOCKS, k requires 0 <= k < BLOCKS => CellAt(frame, width, k));
    DescriptorIsValidFrame(frame, width, r);
    r
  }

  function Descriptors(w: DenseWindow): (r: seq<Frame>)
    requires !TooSmall(w)
    ensures |r| == |w.frames| && forall f :: 0 <= f < |r| ==> ValidFrame(r[f])
  {
    seq(|w.frames|, f requires 0 <= f < |w.frames| => DescriptorOf(w.frames[f], w.width))
  }

  function Geometry(w: DenseWindow): seq<int> {
    [w.nativeWidth, w.nativeHeight, w.height, w.width, CHANNELS]
  }

  /** The number of starts with a whole group behind them. */
  function Starts(w: DenseWindow): (n: nat)
    ensures |w.frames| < 4 ==> n == 0
    ensures |w.frames| >= 4 ==> n + 3 == |w.frames|
  {
    if |w.frames| < FRAMES then 0 else |w.frames| - (FRAMES - 1)
  }

  /** The group at one start of a window, if its ticks are usable. */
  function GroupOf(w: DenseWindow, start: nat): (g: Option<Group>)
    requires !TooSmall(w) && start < Starts(w)
    ensures g.Some? <==> Usable(w.timing, start, FRAMES)
    ensures g.Some? ==> g.value.Key() == (w.stream, w.region, start)
  {
    GroupAt(w.stream, w.region, start, w.base, Geometry(w), w.timing, Descriptors(w))
  }

  /** What the starts of a window give, one after the other. */
  function Found(w: DenseWindow): (r: seq<Option<Group>>)
    requires !TooSmall(w)
    ensures |r| == Starts(w)
  {
    seq(Starts(w), start requires 0 <= start < Starts(w) => GroupOf(w, start))
  }

  function GroupsIn(w: DenseWindow): seq<Group> {
    if TooSmall(w) then [] else Somes(Found(w))
  }

  function ByWindow(windows: seq<DenseWindow>): (r: seq<seq<Group>>)
    ensures |r| == |windows|
  {
    seq(|windows|, i requires 0 <= i < |windows| => GroupsIn(windows[i]))
  }

  /** The groups of all windows, in their order. */
  function AllGroups(windows: seq<DenseWindow>): seq<Group> {
    Flatten(ByWindow(windows))
  }

  method DescribeFrames(w: DenseWindow) returns (descriptors: seq<Frame>)
    requires !TooSmall(w)
    ensures descriptors == Descriptors(w)
  {
    descriptors := [];
    for f := 0 to |w.frames|
      invariant descriptors == Descriptors(w)[..f]
    {
      var d := Describe(w.frames[f], w.width);
      assert d.value == DescriptorOf(w.frames[f], w.width);
      descriptors := descriptors + [d.value];
    }
  }

  /** The group at a start whose ticks were found usable. */
  method Assemble(w: DenseWindow, start: nat, ticks: seq<int>, descriptors: seq<Frame>) returns (g: Group)
    requires !TooSmall(w) && start < Starts(w) && descriptors == Descriptors(w)
    requires Ticks(w.timing, start, FRAMES) == Some(ticks)
    ensures GroupOf(w, start) == Some(g)
  {
    TicksUsable(w.timing, start, FRAMES);
    UsableEnds(w.timing, start, w.base);
    g := Group(w.stream, w.region, start, ticks, Seconds(ticks[0], w.base), Seconds(ticks[FRAMES - 1], w.base),
               Geometry(w), descriptors[start..start + FRAMES]);
  }

  // ----- the analyzer's loop

  /** The starts whose ticks are unknown or out of order; nothing for a window of unsupported
      geometry. */
  function UndefinedStarts(w: DenseWindow): Option<seq<nat>> {
    if TooSmall(w) then None else Some(Missing(Found(w)))
  }

  function Reports(windows: seq<DenseWindow>): (r: seq<Option<seq<nat>>>)
    ensures |r| == |windows|
  {
    seq(|windows|, i requires 0 <= i < |windows| => UndefinedStarts(windows[i]))
  }

  method GroupFromTicks(w: DenseWindow, start: nat, descriptors: seq<Frame>, ghost found: seq<Option<Group>>)
    returns (g: Option<Group>)
    requires !TooSmall(w) && start < Starts(w) && descriptors == Descriptors(w) && found == Found(w)
    ensures g == found[start]
  {
    var ticks := Ticks(w.timing, start, FRAMES);
    TicksUsable(w.timing, start, FRAMES);
    if ticks.None? {
      return None;
    }
    var assembled := Assemble(w, start, ticks.value, descriptors);
    g := Some(assembled);
  }

  method MeasureWindow(w: DenseWindow) returns (groups: seq<Group>, missing: seq<nat>)
    requires !TooSmall(w)
    ensures groups == GroupsIn(w) && missing == Missing(Found(w))
  {
    var descriptors := DescribeFrames(w);
    ghost var found := Found(w);
    groups, missing := [], [];
    for start := 0 to Starts(w)
      invariant groups == Somes(found[..start]) && missing == Missing(found[..start])
    {
      OneMore(found, start);
      var g := GroupFromTicks(w, start, descriptors, found);
      if g.None? {
        missing := missing + [start];
      } else {
        groups := groups + [g.value];
      }
    }
    assert found[..Starts(w)] == found;
  }

  /** One window, with the starts that give no group; neither for unsupported geometry. */
  method MeasureAt(windows: seq<DenseWindow>, i: nat) returns (groups: seq<Group>, undefined: Option<seq<nat>>)
    requires i < |windows|
    ensures groups == ByWindow(windows)[i] && undefined == Reports(windows)[i]
  {
    if TooSmall(windows[i]) {
      return [], None;
    }
    var missing;
    groups, missing := MeasureWindow(windows[i]);
    undefined := Some(missing);
  }

  method AnalyzerGroups(windows: seq<DenseWindow>) returns (groups: seq<Group>, undefined: seq<Option<seq<nat>>>)
    ensures groups == AllGroups(windows) && undefined == Reports(windows)
  {
    ghost var parts, reports := ByWindow(windows), Reports(windows);
    groups, undefined := [], [];
    for i := 0 to |windows|
      invariant groups == Flatten(parts[..i]) && undefined == reports[..i]
    {
      FlattenStep(parts, i);
      var more, starts := MeasureAt(windows, i);
      groups, undefined := groups + more, undefined + [starts];
    }
    assert parts[..|windows|] == parts && reports[..|windows|] == reports;
  }

  // ----- the script's loop

  /** The script's own test of four timing records: a tick unknown, or two out of order. */
  predicate Rejected(selected: seq<Timing>)
    requires |selected| == FRAMES
  {
    || !(forall i :: 0 <= i < FRAMES ==> selected[i].flags % 2 == 1)
    || (exists i :: 0 <= i < FRAMES && i + 1 < FRAMES && selected[i].tick >= selected[i + 1].tick)
  }

  lemma RejectedIsUnusable(rows: seq<Timing>, start: nat)
    requires start + FRAMES <= |rows|
    ensures Rejected(rows[start..start + FRAMES]) <==> !Usable(rows, start, FRAMES)
  {
    var selected := rows[start..start + FRAMES];
    assert forall i :: 0 <= i < FRAMES ==> selected[i] == rows[start + i];
    assert forall i :: start <= i < start + FRAMES ==> rows[i] == selected[i - start];
    if !Rejected(selected) {
      forall i | start < i < start + FRAMES
        ensures rows[i - 1].tick < rows[i].tick
      {
        assert selected[i - start - 1].tick < selected[i - start - 1 + 1].tick;
      }
    }
  }

  method GroupFromSelection(w: DenseWindow, start: nat, descriptors: seq<Frame>, ghost found: seq<Option<Group>>)
    returns (g: Option<Group>)
    requires !TooSmall(w) && start < Starts(w) && descriptors == Descriptors(w) && found == Found(w)
    ensures g == found[start]
  {
    var selected := w.timing[start..start + FRAMES];
    RejectedIsUnusable(w.timing, start);
    if Rejected(selected) {
      return None;
    }
    var ticks := seq(FRAMES, i requires 0 <= i < FRAMES => selected[i].tick);
    TicksUsable(w.timing, start, FRAMES);
    assert ticks == Ticks(w.timing, start, FRAMES).value;
    var assembled := Assemble(w, start, ticks, descriptors);
    g := Some(assembled);
  }

  method GroupsOfWindow(w: DenseWindow) returns (groups: seq<Group>)
    requires !TooSmall(w)
    ensures groups == GroupsIn(w)
  {
    var descriptors := DescribeFrames(w);
    ghost var found := Found(w);
    groups := [];
    for start := 0 to Starts(w)
      invariant groups == Somes(found[..start])
    {
      OneMore(found, start);
      var g := GroupFromSelection(w, start, descriptors, found);
      if g.None? {
        continue;
      }
      groups := groups + [g.value];
    }
    assert found[..Starts(w)] == found;
  }

  method GroupsFromRequest(windows: seq<DenseWindow>) returns (groups: seq<Group>)
    ensures groups == AllGroups(windows)
  {
    ghost var parts := ByWindow(windows);
    groups := [];
    for i := 0 to |windows|
      invariant groups == Flatten(parts[..i])
    {
      FlattenStep(parts, i);
      assert parts[i] == GroupsIn(windows[i]);
      if TooSmall(windows[i]) {
        continue;
      }
      var more := GroupsOfWindow(windows[i]);
      groups := groups + more;
    }
    assert parts[..|windows|] == parts;
  }

  /** The script's groups and pairs, the analyzer's groups and metrics, and the comparison of the
      two, as the scripts run them on every sample: the comparison never stops the script. */
  method Reproduce(windows: seq<DenseWindow>) returns (r: Result<real>)
    ensures r == Success(0.0)
  {
    var groups := GroupsFromRequest(windows);
    var pairs := VideoCorrespondence.EnumeratePairs(groups);
    var measured, undefined := AnalyzerGroups(windows);
    var metrics := VideoCorrespondence.Analyze(measured);
    VideoCorrespondence.ReproductionAgrees(measured);
    r := VideoCorrespondence.VerifyReproduction(pairs, metrics);
  }

  // ----- which groups there are

  /** g is the group at one of the starts of the window, which is large enough. */
  ghost predicate GroupIn(w: DenseWindow, g: Group) {
    w.height >= 9 && w.width >= 16 && exists start: nat :: start + 4 <= |w.frames| && GroupOf(w, start) == Some(g)
  }

  /** What the group at a start holds: the window's place and geometry, four ticks in seconds of its
      time base at the ends, and the block means of its four frames. */
  lemma GroupCarries(w: DenseWindow, start: nat, g: Group)
    requires w.height >= 9 && w.width >= 16 && start + 4 <= |w.frames| && GroupOf(w, start) == Some(g)
    ensures g.stream == w.stream && g.region == w.region && g.start == start
    ensures g.geometry == [w.nativeWidth, w.nativeHeight, w.height, w.width, 3]
    ensures |g.ticks| == 4 && forall i :: 0 <= i < 4 ==> g.ticks[i] == w.timing[start + i].tick
    ensures g.first == w.timing[start].tick as real * w.base && g.last == w.timing[start + 3].tick as real * w.base
    ensures forall i, k :: 0 <= i < 4 && 0 <= k < 432 ==> g.values[i][k] == CellAt(w.frames[start + i], w.width, k)
  {
    GroupFrames(w, start, g);
  }

  lemma GroupFrames(w: DenseWindow, start: nat, g: Group)
    requires w.height >= 9 && w.width >= 16 && start + 4 <= |w.frames| && GroupOf(w, start) == Some(g)
    ensures forall i, k :: 0 <= i < 4 && 0 <= k < 432 ==> g.values[i][k] == CellAt(w.frames[start + i], w.width, k)
  {
    var all := Descriptors(w);
    forall i | 0 <= i < 4
      ensures g.values[i] == all[start + i]
    {
    }
  }

  lemma WindowMembers(w: DenseWindow, g: Group)
    ensures g in GroupsIn(w) <==> GroupIn(w, g)
  {
    if !TooSmall(w) {
      var found := Found(w);
      SomesMembers(found, g);
      assert forall start :: 0 <= start < Starts(w) ==> found[start] == GroupOf(w, start);
    }
  }

  /** The groups are exactly those of every usable start of every window that is large enough. */
  lemma GroupsMembers(windows: seq<DenseWindow>, g: Group)
    ensures g in AllGroups(windows) <==> exists i :: 0 <= i < |windows| && GroupIn(windows[i], g)
  {
    var parts := ByWindow(windows);
    FlattenMembers(parts, g);
    forall i | 0 <= i < |windows|
      ensures g in parts[i] <==> GroupIn(windows[i], g)
    {
      WindowMembers(windows[i], g);
    }
  }

  /** A start is reported as undefined exactly when its ticks are not usable; then, and only then,
      it gives no group. */
  lemma UndefinedMembers(w: DenseWindow, start: nat)
    requires !TooSmall(w)
    ensures UndefinedStarts(w).Some?
    ensures start in UndefinedStarts(w).value <==> start < Starts(w) && !Usable(w.timing, start, FRAMES)
    ensures start in UndefinedStarts(w).value <==> start < Starts(w) && GroupOf(w, start).None?
  {
    MissingMembers(Found(w), start);
  }

  // ----- group keys

  ghost predicate DistinctRegions(windows: seq<DenseWindow>) {
    forall i, j :: 0 <= i < j < |windows| ==> (windows[i].stream, windows[i].region) != (windows[j].stream, windows[j].region)
  }

  lemma ConcatDistinct(a: seq<Group>, b: seq<Group>)
    requires DistinctKeys(a) && DistinctKeys(b)
    requires forall g: Group, h: Group :: g in a && h in b ==> g.Key() != h.Key()
    ensures DistinctKeys(a + b)
  {
    forall i, j | 0 <= i < j < |a + b|
      ensures (a + b)[i].Key() != (a + b)[j].Key()
    {
      if i < |a| <= j {
        assert a[i] in a && b[j - |a|] in b;
      }
    }
  }

  lemma {:induction false} SomesDistinct(found: seq<Option<Group>>)
    requires forall i, j ::
               0 <= i < j < |found| && found[i].Some? && found[j].Some? ==> found[i].value.Key() != found[j].value.Key()
    ensures DistinctKeys(Somes(found))
  {
    if found == [] {
    } else {
      var k := |found| - 1;
      var before := found[..k];
      SomesDistinct(before);
      if found[k].Some? {
        forall g: Group | g in Somes(before)
          ensures g.Key() != found[k].value.Key()
        {
          SomesMembers(before, g);
        }
        ConcatDistinct(Somes(before), [found[k].value]);
      } else {
        ConcatDistinct(Somes(before), []);
      }
    }
  }

  lemma WindowKeys(w: DenseWindow)
    ensures DistinctKeys(GroupsIn(w))
    ensures forall g: Group :: g in GroupsIn(w) ==> g.stream == w.stream && g.region == w.region
  {
    if !TooSmall(w) {
      SomesDistinct(Found(w));
      forall g: Group | g in GroupsIn(w)
        ensures g.stream == w.stream && g.region == w.region
      {
        SomesMembers(Found(w), g);
      }
    }
  }

  lemma {:induction false} FlattenDistinct(parts: seq<seq<Group>>)
    requires forall i :: 0 <= i < |parts| ==> DistinctKeys(parts[i])
    requires forall i, j, g: Group, h: Group ::
               0 <= i < j < |parts| && g in parts[i] && h in parts[j] ==> g.Key() != h.Key()
    ensures DistinctKeys(Flatten(parts))
  {
    if parts == [] {
    } else {
      var k := |parts| - 1;
      var before := parts[..k];
      FlattenDistinct(before);
      forall g: Group, h: Group | g in Flatten(before) && h in parts[k]
        ensures g.Key() != h.Key()
      {
        FlattenMembers(before, g);
      }
      ConcatDistinct(Flatten(before), parts[k]);
    }
  }

  /** Windows of different regions give groups of different keys, so building runs from them never
      fails on a duplicate identity. */
  lemma KeysAreDistinct(windows: seq<DenseWindow>)
    requires DistinctRegions(windows)
    ensures DistinctKeys(AllGroups(windows))
  {
    var parts := ByWindow(windows);
    forall i | 0 <= i < |windows|
      ensures DistinctKeys(parts[i])
      ensures forall g: Group :: g in parts[i] ==> g.stream == windows[i].stream && g.region == windows[i].region
    {
      WindowKeys(windows[i]);
    }
    FlattenDistinct(parts);
  }
}
