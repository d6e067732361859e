/**
  Repeated-content correspondence, twice: the one-pass fold of
  src/fakedetector/analyzers/_video_experimental.py and the independent list-building
  reproduction of scripts/diploma_vrc_targeted_research.py, which stops when they disagree.
 */
module VideoCorrespondence {
  import opened Wrappers
  import opened Integers
  import opened VideoGroups
  import opened Sorting

  datatype Pair = Pair(a: Group, b: Group, color: int, delta: int, temporalA: int, temporalB: int)

  function MakePair(a: Group, b: Group): Pair
  {
    var d := DistancesOf(a, b);
    Pair(a, b, d.color, d.delta, d.temporalA, d.temporalB)
  }

  // ----- the common specification: the eligible pairs in combinations order

  predicate Comparable(first: Group, second: Group) {
    && first.stream == second.stream && first.geometry == second.geometry
    && !(first.region == second.region && Abs(first.start - second.start) < 5)
  }

  /** _pair_order: the earlier group first, or nothing. */
  function PairOrder(first: Group, second: Group): Option<(Group, Group)>
  {
    if first.stream != second.stream || first.geometry != second.geometry then None
    else if first.region == second.region && Abs(first.start - second.start) < 5 then None
    else if first.last < second.first then Some((first, second))
    else if second.last < first.first then Some((second, first))
    else None
  }

  /** The order of the arguments is immaterial, and what comes out really is ordered in time. */
  lemma PairOrderSymmetric(first: Group, second: Group)
    ensures PairOrder(first, second) == PairOrder(second, first)
    ensures PairOrder(first, second).Some? ==>
              var (a, b) := PairOrder(first, second).value;
              {a, b} == {first, second} && a.last < b.first && Comparable(a, b)
  {
  }

  function PairAt(first: Group, second: Group): seq<Pair>
  {
    match PairOrder(first, second)
    case None => []
    case Some((a, b)) => [MakePair(a, b)]
  }

  function Row(g: Group, rest: seq<Group>): seq<Pair>
  {
    if rest == [] then [] else PairAt(g, rest[0]) + Row(g, rest[1..])
  }

  function EligiblePairs(groups: seq<Group>): seq<Pair>
  {
    if groups == [] then [] else Row(groups[0], groups[1..]) + EligiblePairs(groups[1..])
  }

  // ----- first minimum

  function ColorOf(): Pair -> int {
    (p: Pair) => p.color
  }

  function DeltaOf(): Pair -> int {
    (p: Pair) => p.delta
  }

  function FirstMinimumIndex(pairs: seq<Pair>, key: Pair -> int): (i: nat)
    requires pairs != []
    ensures i < |pairs|
    ensures forall j :: 0 <= j < i ==> key(pairs[i]) < key(pairs[j])
    ensures forall j :: i <= j < |pairs| ==> key(pairs[i]) <= key(pairs[j])
  {
    var k := |pairs| - 1;
    if k == 0 then 0
    else
      var before := FirstMinimumIndex(pairs[..k], key);
      assert pairs[..k][before] == pairs[before];
      assert forall j :: 0 <= j < k ==> pairs[..k][j] == pairs[j];
      if key(pairs[k]) < key(pairs[before]) then k else before
  }

  /** min(pairs, key=key): the first of the smallest; None for no pairs. */
  function FirstMinimum(pairs: seq<Pair>, key: Pair -> int): Option<Pair> {
    if pairs == [] then None else Some(pairs[FirstMinimumIndex(pairs, key)])
  }

  // ----- production

  /** location() */
  datatype Location = Location(region: int, start: int, ticks: seq<int>)

  /** The fields of a pair that the analyzer reports and the reproduction compares. */
  datatype PairRecord = PairRecord(
    stream: int,
    a: Location,
    b: Location,
    color: int,
    delta: int,
    temporalA: int,
    temporalB: int)

  function LocationOf(g: Group): Location {
    Location(g.region, g.start, g.ticks)
  }

  function RecordOf(p: Pair): PairRecord {
    PairRecord(p.a.stream, LocationOf(p.a), LocationOf(p.b), p.color, p.delta, p.temporalA, p.temporalB)
  }

  function Recorded(p: Option<Pair>): Option<PairRecord> {
    if p.None? then None else Some(RecordOf(p.value))
  }

  datatype Measurement = Measurement(
    eligible: nat,
    excluded: int,
    zeroPairs: nat,
    dynamicZeroPairs: nat,
    minimumColor: Option<PairRecord>,
    minimumDelta: Option<PairRecord>)

  /** Equal descriptors; dynamic when both groups also move. */
  function IsZero(dynamic: bool): Pair -> bool {
    (p: Pair) => p.color == 0 && p.delta == 0 && (dynamic ==> p.temporalA > 0 && p.temporalB > 0)
  }

  /** The running counters and minima of the fold. */
  datatype Tally = Tally(
    eligible: nat,
    zeroPairs: nat,
    dynamicZeroPairs: nat,
    minimumColor: Option<Pair>,
    minimumDelta: Option<Pair>)

  /** What the fold must hold after a list of eligible pairs. */
  function TallyOf(pairs: seq<Pair>): Tally {
    Tally(|pairs|, CountIf(pairs, IsZero(false)), CountIf(pairs, IsZero(true)),
          FirstMinimum(pairs, ColorOf()), FirstMinimum(pairs, DeltaOf()))
  }

  function MeasurementOf(pairs: seq<Pair>, groupCount: nat): Measurement {
    var t := TallyOf(pairs);
    Measurement(t.eligible, groupCount * (groupCount - 1) / 2 - t.eligible, t.zeroPairs, t.dynamicZeroPairs,
                Recorded(t.minimumColor), Recorded(t.minimumDelta))
  }

  /** A minimum is replaced only by a strictly smaller value. */
  function Improved(current: Option<Pair>, p: Pair, key: Pair -> int): Option<Pair> {
    if current.None? || key(p) < key(current.value) then Some(p) else current
  }

  lemma FirstMinimumStep(seen: seq<Pair>, p: Pair, key: Pair -> int)
    ensures FirstMinimum(seen + [p], key) == Improved(FirstMinimum(seen, key), p, key)
  {
    assert (seen + [p])[..|seen|] == seen;
  }

  lemma CountStep(seen: seq<Pair>, p: Pair, holds: Pair -> bool)
    ensures CountIf(seen + [p], holds) == CountIf(seen, holds) + if holds(p) then 1 else 0
  {
    assert (seen + [p])[..|seen|] == seen;
  }

  /** Accounts for one pair. */
  method Record(t: Tally, p: Pair, ghost seen: seq<Pair>) returns (r: Tally)
    requires t == TallyOf(seen)
    ensures r == TallyOf(seen + [p])
  {
    var zeroPairs, dynamicZeroPairs := t.zeroPairs, t.dynamicZeroPairs;
    if p.color == 0 && p.delta == 0 {
      zeroPairs := zeroPairs + 1;
      if p.temporalA > 0 && p.temporalB > 0 {
        dynamicZeroPairs := dynamicZeroPairs + 1;
      }
    }
    FirstMinimumStep(seen, p, ColorOf());
    FirstMinimumStep(seen, p, DeltaOf());
    CountStep(seen, p, IsZero(false));
    CountStep(seen, p, IsZero(true));
    r := Tally(t.eligible + 1, zeroPairs, dynamicZeroPairs,
               Improved(t.minimumColor, p, ColorOf()), Improved(t.minimumDelta, p, DeltaOf()));
  }

  /** The body of the loop over combinations. */
  method MeasurePair(first: Group, second: Group, t: Tally, ghost seen: seq<Pair>) returns (r: Tally)
    requires t == TallyOf(seen)
    ensures r == TallyOf(seen + PairAt(first, second))
  {
    var ordered := PairOrder(first, second);
    if ordered.None? {
      assert seen + [] == seen;
      return t;
    }
    r := Record(t, MakePair(ordered.value.0, ordered.value.1), seen);
  }

  method MeasureRow(groups: seq<Group>, i: nat, t: Tally, ghost before: seq<Pair>) returns (r: Tally)
    requires i < |groups| && t == TallyOf(before)
    ensures r == TallyOf(before + Row(groups[i], groups[i + 1..]))
  {
    r := t;
    ghost var seen, whole := before, before + Row(groups[i], groups[i + 1..]);
    for j := i + 1 to |groups|
      invariant seen + Row(groups[i], groups[j..]) == whole
      invariant r == TallyOf(seen)
    {
      RowStep(groups[i], groups, j, seen, whole);
      r := MeasurePair(groups[i], groups[j], r, seen);
      seen := seen + PairAt(groups[i], groups[j]);
    }
    assert seen + [] == seen;
  }

  method Analyze(groups: seq<Group>) returns (m: Measurement)
    ensures m == MeasurementOf(EligiblePairs(groups), |groups|)
  {
    var tally := Tally(0, 0, 0, None, None);
    ghost var seen: seq<Pair> := [];
    for i := 0 to |groups|
      invariant seen + EligiblePairs(groups[i..]) == EligiblePairs(groups)
      invariant tally == TallyOf(seen)
    {
      PairsHead(groups, i);
      tally := MeasureRow(groups, i, tally, seen);
      Associate(seen, Row(groups[i], groups[i + 1..]), EligiblePairs(groups[i + 1..]));
      seen := seen + Row(groups[i], groups[i + 1..]);
    }
    assert seen + [] == seen;
    m := Measurement(tally.eligible, |groups| * (|groups| - 1) / 2 - tally.eligible, tally.zeroPairs,
                     tally.dynamicZeroPairs, Recorded(tally.minimumColor), Recorded(tally.minimumDelta));
  }

  lemma PairsHead(groups: seq<Group>, i: nat)
    requires i < |groups|
    ensures EligiblePairs(groups[i..]) == Row(groups[i], groups[i + 1..]) + EligiblePairs(groups[i + 1..])
  {
    assert groups[i..][1..] == groups[i + 1..];
  }

  /** What one step appends comes off the rest of the row. */
  lemma RowStep(g: Group, groups: seq<Group>, j: nat, seen: seq<Pair>, whole: seq<Pair>)
    requires j < |groups| && seen + Row(g, groups[j..]) == whole
    ensures (seen + PairAt(g, groups[j])) + Row(g, groups[j + 1..]) == whole
  {
    assert groups[j..][1..] == groups[j + 1..];
    Associate(seen, PairAt(g, groups[j]), Row(g, groups[j + 1..]));
  }

  // ----- the independent reproduction

  /** The reproduction's own admissibility test: the appended pair, if any. */
  method Admit(first: Group, second: Group) returns (admitted: seq<Pair>)
    ensures admitted == PairAt(first, second)
  {
    if first.stream != second.stream || first.geometry != second.geometry {
      return [];
    }
    if first.region == second.region && Abs(first.start - second.start) < 5 {
      return [];
    }
    if first.last < second.first {
      return [MakePair(first, second)];
    }
    if second.last < first.first {
      return [MakePair(second, first)];
    }
    admitted := [];
  }

  method EnumerateRow(groups: seq<Group>, i: nat, before: seq<Pair>) returns (pairs: seq<Pair>)
    requires i < |groups|
    ensures pairs == before + Row(groups[i], groups[i + 1..])
  {
    pairs := before;
    ghost var whole := before + Row(groups[i], groups[i + 1..]);
    for j := i + 1 to |groups|
      invariant pairs + Row(groups[i], groups[j..]) == whole
    {
      RowStep(groups[i], groups, j, pairs, whole);
      var admitted := Admit(groups[i], groups[j]);
      pairs := pairs + admitted;
    }
    assert groups[|groups|..] == [] && pairs + [] == pairs;
  }

  method EnumeratePairs(groups: seq<Group>) returns (pairs: seq<Pair>)
    ensures pairs == EligiblePairs(groups)
  {
    pairs := [];
    for i := 0 to |groups|
      invariant pairs + EligiblePairs(groups[i..]) == EligiblePairs(groups)
    {
      PairsHead(groups, i);
      Associate(pairs, Row(groups[i], groups[i + 1..]), EligiblePairs(groups[i + 1..]));
      pairs := EnumerateRow(groups, i, pairs);
    }
    assert pairs + [] == pairs;
  }

  /** The larger of the two normalized distances. */
  function Joint(color: int, delta: int): real {
    var c, d := color as real / COLOR_DENOMINATOR as real, delta as real / DELTA_DENOMINATOR as real;
    if c < d then d else c
  }

  function Distance(p: Pair): real {
    Joint(p.color, p.delta)
  }

  /** The distance of a pair is its color in units of 440640 or its delta in units of 660960, and the
      larger of both. */
  lemma DistanceIsLarger(p: Pair)
    ensures 440640.0 * Distance(p) >= p.color as real && 660960.0 * Distance(p) >= p.delta as real
    ensures 440640.0 * Distance(p) == p.color as real || 660960.0 * Distance(p) == p.delta as real
  {
  }

  function Similarity(p: Pair): real {
    1.0 - Distance(p)
  }

  /** The larger of what there is. */
  function Best(a: Option<real>, b: Option<real>): Option<real> {
    if a.None? then b
    else if b.None? then a
    else if a.value < b.value then b
    else a
  }

  function SimilarityOf(p: Option<Pair>): Option<real> {
    if p.None? then None else Some(Similarity(p.value))
  }

  /** The reproduction's response, with the records of the two minima. */
  function RetainedResponse(pairs: seq<Pair>): (Option<real>, Option<PairRecord>, Option<PairRecord>) {
    var color, delta := FirstMinimum(pairs, ColorOf()), FirstMinimum(pairs, DeltaOf());
    (Best(SimilarityOf(color), SimilarityOf(delta)), Recorded(color), Recorded(delta))
  }

  function RecordSimilarity(r: Option<PairRecord>): Option<real> {
    if r.None? then None else Some(1.0 - Joint(r.value.color, r.value.delta))
  }

  predicate CountsInRange(r: Option<PairRecord>) {
    r.Some? ==> 0 <= r.value.color <= COLOR_DENOMINATOR && 0 <= r.value.delta <= DELTA_DENOMINATOR
  }

  /** The production normalizer: it raises on a numerator outside 0 .. denominator. */
  function RepetitionResponse(m: Measurement): Result<Option<real>> {
    if !CountsInRange(m.minimumColor) || !CountsInRange(m.minimumDelta) then Failure("invalid VRC count")
    else Success(Best(RecordSimilarity(m.minimumColor), RecordSimilarity(m.minimumDelta)))
  }

  ghost predicate OutOfRange(r: Option<PairRecord>) {
    r.Some? && (r.value.color < 0 || r.value.color > 440640 || r.value.delta < 0 || r.value.delta > 660960)
  }

  /** One less s is at most the larger normalized distance of a record, where there is one. */
  ghost predicate NoMoreSimilar(r: Option<PairRecord>, s: real) {
    r.Some? ==> r.value.color as real >= 440640.0 * (1.0 - s) || r.value.delta as real >= 660960.0 * (1.0 - s)
  }

  ghost predicate AsSimilar(r: Option<PairRecord>, s: real) {
    r.Some? && r.value.color as real <= 440640.0 * (1.0 - s) && r.value.delta as real <= 660960.0 * (1.0 - s)
  }

  /** For any measurement: the normalizer raises exactly on a count out of range; otherwise it gives
      the best similarity, between 0 and 1, of the recorded pairs. */
  lemma NormalizerMeans(m: Measurement)
    ensures RepetitionResponse(m).Failure? <==> OutOfRange(m.minimumColor) || OutOfRange(m.minimumDelta)
    ensures RepetitionResponse(m).Success? ==>
              var s := RepetitionResponse(m).value;
              && (s.None? <==> m.minimumColor.None? && m.minimumDelta.None?)
              && (s.Some? ==>
                    && 0.0 <= s.value <= 1.0
                    && NoMoreSimilar(m.minimumColor, s.value) && NoMoreSimilar(m.minimumDelta, s.value)
                    && (AsSimilar(m.minimumColor, s.value) || AsSimilar(m.minimumDelta, s.value)))
  {
  }

  method VerifyReproduction(pairs: seq<Pair>, metrics: Measurement) returns (r: Result<real>)
    ensures r.Success? <==>
              && metrics.minimumColor == Recorded(FirstMinimum(pairs, ColorOf()))
              && metrics.minimumDelta == Recorded(FirstMinimum(pairs, DeltaOf()))
              && |pairs| == metrics.eligible
              && RepetitionResponse(metrics) == Success(RetainedResponse(pairs).0)
    ensures r.Success? ==> r.value == 0.0
  {
    var (response, color, delta) := RetainedResponse(pairs);
    if color != metrics.minimumColor || delta != metrics.minimumDelta || |pairs| != metrics.eligible {
      return Failure("STOP: independent VRC pair reproduction mismatch");
    }
    var production := RepetitionResponse(metrics);
    if production.Failure? {
      return Failure(production.message);
    }
    if response != production.value {
      return Failure("STOP: independent VRC response reproduction mismatch");
    }
    r := Success(0.0);
  }

  // ----- which pairs are eligible

  /** p is what comparing g and h gives. */
  ghost predicate Joins(g: Group, h: Group, p: Pair) {
    PairOrder(g, h) == Some((p.a, p.b)) && p == MakePair(p.a, p.b)
  }

  lemma {:induction false} RowMembers(g: Group, rest: seq<Group>, p: Pair)
    ensures p in Row(g, rest) <==> exists j :: 0 <= j < |rest| && Joins(g, rest[j], p)
  {
    if rest == [] {
    } else {
      var tail := rest[1..];
      RowMembers(g, tail, p);
      assert p in Row(g, rest) <==> Joins(g, rest[0], p) || p in Row(g, tail);
      if p in Row(g, tail) {
        var j :| 0 <= j < |tail| && Joins(g, tail[j], p);
        assert rest[j + 1] == tail[j];
      }
      assert forall j :: 0 < j < |rest| ==> rest[j] == tail[j - 1];
    }
  }

  ghost predicate JoinsFrom(groups: seq<Group>, i: int, p: Pair)
    requires 0 <= i < |groups|
  {
    exists j :: i < j < |groups| && Joins(groups[i], groups[j], p)
  }

  /** The list holds exactly what comparing any two groups, in their order, gives. */
  lemma {:induction false} PairsJoin(groups: seq<Group>, p: Pair)
    ensures p in EligiblePairs(groups) <==> exists i :: 0 <= i < |groups| && JoinsFrom(groups, i, p)
  {
    if groups == [] {
    } else {
      var tail := groups[1..];
      PairsJoin(tail, p);
      RowMembers(groups[0], tail, p);
      assert p in EligiblePairs(groups) <==> p in Row(groups[0], tail) || p in EligiblePairs(tail);
      HeadJoins(groups, p);
      TailJoins(groups, p);
    }
  }

  /** Two groups are eligible: the same stream and geometry, not nearly the same place of one region,
      and the first ends before the second begins. */
  ghost predicate IsEligible(a: Group, b: Group) {
    && a.stream == b.stream && a.geometry == b.geometry
    && !(a.region == b.region && -5 < a.start - b.start < 5)
    && a.last < b.first
  }

  lemma JoinsExactly(g: Group, h: Group, p: Pair)
    ensures Joins(g, h, p) <==> (IsEligible(g, h) && p == MakePair(g, h)) || (IsEligible(h, g) && p == MakePair(h, g))
    ensures !(IsEligible(g, h) && IsEligible(h, g))
  {
    assert MakePair(g, h).a == g && MakePair(g, h).b == h && MakePair(h, g).a == h && MakePair(h, g).b == g;
  }

  /** Exactly the pairs that are listed: of every eligible two groups at different positions, the
      earlier before the later, with their distances. */
  lemma PairMembers(groups: seq<Group>, p: Pair)
    ensures p in EligiblePairs(groups) <==>
              exists i, j :: 0 <= i < |groups| && 0 <= j < |groups| && i != j
                             && IsEligible(groups[i], groups[j]) && p == MakePair(groups[i], groups[j])
  {
    PairsJoin(groups, p);
    if p in EligiblePairs(groups) {
      var i :| 0 <= i < |groups| && JoinsFrom(groups, i, p);
      var j :| i < j < |groups| && Joins(groups[i], groups[j], p);
      JoinsExactly(groups[i], groups[j], p);
    }
    if i, j :| 0 <= i < |groups| && 0 <= j < |groups| && i != j
               && IsEligible(groups[i], groups[j]) && p == MakePair(groups[i], groups[j]) {
      var first, second := if i < j then i else j, if i < j then j else i;
      JoinsExactly(groups[first], groups[second], p);
      assert Joins(groups[first], groups[second], p);
      assert JoinsFrom(groups, first, p);
    }
  }

  /** The reported distances of a listed pair are those of its two groups. */
  lemma PairCarries(a: Group, b: Group)
    ensures var p, d := MakePair(a, b), DistancesOf(a, b);
            && p.a == a && p.b == b && p.color == d.color && p.delta == d.delta
            && p.temporalA == d.temporalA && p.temporalB == d.temporalB
  {
  }

  // ----- how many pairs are eligible

  ghost predicate EitherWay(g: Group, h: Group) {
    IsEligible(g, h) || IsEligible(h, g)
  }

  lemma OneOrNone(g: Group, h: Group)
    ensures |PairAt(g, h)| == if EitherWay(g, h) then 1 else 0
  {
  }

  lemma RowSize(g: Group, groups: seq<Group>, j: nat)
    requires j < |groups|
    ensures |Row(g, groups[j..])| == |Row(g, groups[j + 1..])| + if EitherWay(g, groups[j]) then 1 else 0
  {
    OneOrNone(g, groups[j]);
    assert groups[j..][1..] == groups[j + 1..];
  }

  ghost function RowIndices(groups: seq<Group>, i: nat, j: nat): (s: set<(int, int)>)
    requires i < |groups| && j <= |groups|
    ensures forall p :: p in s <==> p.0 == i && j <= p.1 < |groups| && EitherWay(groups[i], groups[p.1])
    ensures |s| == |Row(groups[i], groups[j..])|
    decreases |groups| - j
  {
    if j == |groups| then {}
    else
      RowSize(groups[i], groups, j);
      RowIndices(groups, i, j + 1) + if EitherWay(groups[i], groups[j]) then {(i, j)} else {}
  }

  /** The index pairs of eligible groups: the eligible count is their number. */
  ghost function PairIndices(groups: seq<Group>, i: nat): (s: set<(int, int)>)
    requires i <= |groups|
    ensures forall p :: p in s <==> i <= p.0 < p.1 < |groups| && EitherWay(groups[p.0], groups[p.1])
    ensures |s| == |EligiblePairs(groups[i..])|
    decreases |groups| - i
  {
    if i == |groups| then {}
    else
      var row, rest := RowIndices(groups, i, i + 1), PairIndices(groups, i + 1);
      assert row !! rest;
      PairsHead(groups, i);
      row + rest
  }

  // ----- what is measured

  /** The pairs with equal descriptors, dynamic ones if both groups also move. */
  ghost function ZeroPositions(pairs: seq<Pair>, dynamic: bool): (s: set<int>)
    ensures forall i :: i in s <==>
              && 0 <= i < |pairs| && pairs[i].color == 0 && pairs[i].delta == 0
              && (dynamic ==> pairs[i].temporalA > 0 && pairs[i].temporalB > 0)
    ensures |s| == CountIf(pairs, IsZero(dynamic))
  {
    Positions(pairs, IsZero(dynamic))
  }

  /** The four counts of a measurement. */
  lemma MeasurementCounts(groups: seq<Group>)
    ensures var pairs, m := EligiblePairs(groups), MeasurementOf(EligiblePairs(groups), |groups|);
            && m.eligible == |pairs| == |PairIndices(groups, 0)|
            && m.eligible + m.excluded == |groups| * (|groups| - 1) / 2
            && m.zeroPairs == |ZeroPositions(pairs, false)| && m.dynamicZeroPairs == |ZeroPositions(pairs, true)|
  {
    assert groups[0..] == groups;
  }

  ghost predicate FirstByColor(pairs: seq<Pair>, k: int) {
    && 0 <= k < |pairs|
    && (forall j :: 0 <= j < |pairs| ==> pairs[k].color <= pairs[j].color)
    && (forall j :: 0 <= j < k ==> pairs[k].color < pairs[j].color)
  }

  ghost predicate FirstByDelta(pairs: seq<Pair>, k: int) {
    && 0 <= k < |pairs|
    && (forall j :: 0 <= j < |pairs| ==> pairs[k].delta <= pairs[j].delta)
    && (forall j :: 0 <= j < k ==> pairs[k].delta < pairs[j].delta)
  }

  /** r reports the pair: its stream, where its groups lie, and its four distances. */
  ghost predicate Reports(r: Option<PairRecord>, p: Pair) {
    && r.Some? && r.value.stream == p.a.stream
    && r.value.a == Location(p.a.region, p.a.start, p.a.ticks) && r.value.b == Location(p.b.region, p.b.start, p.b.ticks)
    && r.value.color == p.color && r.value.delta == p.delta
    && r.value.temporalA == p.temporalA && r.value.temporalB == p.temporalB
  }

  /** The two reported minima are the first of the pairs least in color, and the first of those
      least in delta. */
  lemma MeasurementMinima(groups: seq<Group>)
    ensures var pairs, m := EligiblePairs(groups), MeasurementOf(EligiblePairs(groups), |groups|);
            && (pairs == [] <==> m.minimumColor.None?) && (pairs == [] <==> m.minimumDelta.None?)
            && (pairs != [] ==> (exists k :: FirstByColor(pairs, k) && Reports(m.minimumColor, pairs[k]))
                                && exists k :: FirstByDelta(pairs, k) && Reports(m.minimumDelta, pairs[k]))
  {
    var pairs := EligiblePairs(groups);
    if pairs != [] {
      var c, d := FirstsFound(pairs);
    }
  }

  /** Where the two minima are found. */
  lemma FirstsFound(pairs: seq<Pair>) returns (c: nat, d: nat)
    requires pairs != []
    ensures FirstByColor(pairs, c) && FirstMinimum(pairs, ColorOf()) == Some(pairs[c]) && Reports(Recorded(Some(pairs[c])), pairs[c])
    ensures FirstByDelta(pairs, d) && FirstMinimum(pairs, DeltaOf()) == Some(pairs[d]) && Reports(Recorded(Some(pairs[d])), pairs[d])
  {
    c, d := FirstMinimumIndex(pairs, ColorOf()), FirstMinimumIndex(pairs, DeltaOf());
    assert forall j :: 0 <= j < |pairs| ==> ColorOf()(pairs[j]) == pairs[j].color && DeltaOf()(pairs[j]) == pairs[j].delta;
  }

  /** r is one less the larger normalized distance of p, or more. */
  ghost predicate AtLeastSimilar(r: real, p: Pair) {
    p.color as real >= 440640.0 * (1.0 - r) || p.delta as real >= 660960.0 * (1.0 - r)
  }

  ghost predicate AtMostSimilar(r: real, p: Pair) {
    p.color as real <= 440640.0 * (1.0 - r) && p.delta as real <= 660960.0 * (1.0 - r)
  }

  /** The response is the best similarity of the two minima: neither is more similar, one is exactly
      as similar; and without pairs there is none. */
  lemma ResponseIsBest(pairs: seq<Pair>)
    ensures var r := RetainedResponse(pairs).0;
            && (pairs == [] <==> r.None?)
            && (pairs != [] ==>
                  && (forall k :: FirstByColor(pairs, k) || FirstByDelta(pairs, k) ==> AtLeastSimilar(r.value, pairs[k]))
                  && exists k :: (FirstByColor(pairs, k) || FirstByDelta(pairs, k)) && AtMostSimilar(r.value, pairs[k]))
  {
    if pairs != [] {
      var c, d := FirstsFound(pairs);
      forall k | FirstByColor(pairs, k)
        ensures k == c
      {
      }
      forall k | FirstByDelta(pairs, k)
        ensures k == d
      {
      }
    }
  }

  lemma HeadJoins(groups: seq<Group>, p: Pair)
    requires groups != []
    ensures JoinsFrom(groups, 0, p) <==> exists j :: 0 <= j < |groups[1..]| && Joins(groups[0], groups[1..][j], p)
  {
    var tail := groups[1..];
    assert forall j :: 0 < j < |groups| ==> groups[j] == tail[j - 1];
    assert forall j :: 0 <= j < |tail| ==> tail[j] == groups[j + 1];
  }

  lemma TailJoins(groups: seq<Group>, p: Pair)
    requires groups != []
    ensures (exists i :: 0 < i < |groups| && JoinsFrom(groups, i, p))
       <==> exists i :: 0 <= i < |groups[1..]| && JoinsFrom(groups[1..], i, p)
  {
    forall i | 0 <= i < |groups[1..]|
      ensures JoinsFrom(groups[1..], i, p) <==> JoinsFrom(groups, i + 1, p)
    {
    }
    if i :| 0 < i < |groups| && JoinsFrom(groups, i, p) {
      assert JoinsFrom(groups[1..], i - 1, p);
    }
  }

  /** Every listed pair is comparable and ordered in time, with the distances of its groups. */
  lemma PairIsComparable(groups: seq<Group>, p: Pair)
    requires p in EligiblePairs(groups)
    ensures p == MakePair(p.a, p.b)
    ensures p.a.last < p.b.first && Comparable(p.a, p.b)
  {
    PairsJoin(groups, p);
    var i :| 0 <= i < |groups| && JoinsFrom(groups, i, p);
    var j :| i < j < |groups| && Joins(groups[i], groups[j], p);
    PairOrderSymmetric(groups[i], groups[j]);
  }

  lemma MinimumInRange(groups: seq<Group>, key: Pair -> int)
    ensures CountsInRange(Recorded(FirstMinimum(EligiblePairs(groups), key)))
  {
    var pairs := EligiblePairs(groups);
    if pairs != [] {
      var p := FirstMinimum(pairs, key).value;
      assert p in pairs;
      PairIsComparable(groups, p);
      DistanceBounds(p.a, p.b);
    }
  }

  /** On the pairs of any groups the production normalizer never raises, and it computes from the
      recorded numerators what the reproduction computes from the pairs. */
  lemma ReproductionAgrees(groups: seq<Group>)
    ensures var pairs, metrics := EligiblePairs(groups), MeasurementOf(EligiblePairs(groups), |groups|);
            && metrics.minimumColor == RetainedResponse(pairs).1 && metrics.minimumDelta == RetainedResponse(pairs).2
            && |pairs| == metrics.eligible
            && RepetitionResponse(metrics) == Success(RetainedResponse(pairs).0)
  {
    var pairs := EligiblePairs(groups);
    MinimumInRange(groups, ColorOf());
    MinimumInRange(groups, DeltaOf());
    ResponsesAgree(FirstMinimum(pairs, ColorOf()), FirstMinimum(pairs, DeltaOf()), MeasurementOf(pairs, |groups|));
  }

  lemma ResponsesAgree(color: Option<Pair>, delta: Option<Pair>, m: Measurement)
    requires m.minimumColor == Recorded(color) && m.minimumDelta == Recorded(delta)
    requires CountsInRange(m.minimumColor) && CountsInRange(m.minimumDelta)
    ensures RepetitionResponse(m) == Success(Best(SimilarityOf(color), SimilarityOf(delta)))
  {
  }

  // ----- permuting the groups

  lemma RowBag(g: Group, rest: seq<Group>)
    requires rest != []
    ensures multiset(Row(g, rest)) == multiset(PairAt(g, rest[0])) + multiset(Row(g, rest[1..]))
  {
  }

  lemma PairsBag(groups: seq<Group>)
    requires groups != []
    ensures multiset(EligiblePairs(groups)) == multiset(Row(groups[0], groups[1..])) + multiset(EligiblePairs(groups[1..]))
  {
  }

  lemma {:induction false} RowWithout(g: Group, rest: seq<Group>, k: nat)
    requires k < |rest|
    ensures multiset(Row(g, rest)) == multiset(PairAt(g, rest[k])) + multiset(Row(g, Without(rest, k)))
  {
    if k == 0 {
      RowBag(g, rest);
      assert Without(rest, 0) == rest[1..];
    } else {
      var fewer := Without(rest, k);
      RowWithout(g, rest[1..], k - 1);
      WithoutTail(rest, k);
      RowBag(g, rest);
      RowBag(g, fewer);
    }
  }

  /** Taking one group out takes out exactly its row. */
  lemma {:induction false} PairsWithout(groups: seq<Group>, k: nat)
    requires k < |groups|
    ensures multiset(EligiblePairs(groups)) == multiset(Row(groups[k], Without(groups, k))) + multiset(EligiblePairs(Without(groups, k)))
  {
    if k == 0 {
      assert Without(groups, 0) == groups[1..];
    } else {
      var rest, fewer := groups[1..], Without(groups, k);
      PairsWithout(rest, k - 1);
      RowWithout(groups[0], rest, k - 1);
      WithoutTail(groups, k);
      PairsBag(groups);
      PairsBag(fewer);
      RowBag(groups[k], fewer);
      SwapPairAt(groups[0], groups[k]);
      Exchange(multiset(PairAt(groups[0], groups[k])), multiset(Row(groups[0], fewer[1..])),
               multiset(Row(groups[k], fewer[1..])), multiset(EligiblePairs(fewer[1..])));
    }
  }

  lemma Exchange<T>(p: multiset<T>, q: multiset<T>, r: multiset<T>, s: multiset<T>)
    ensures (p + q) + (r + s) == (p + r) + (q + s)
  {
  }

  lemma SwapPairAt(g: Group, h: Group)
    ensures PairAt(g, h) == PairAt(h, g)
  {
    PairOrderSymmetric(g, h);
  }

  lemma {:induction false} RowPermutation(g: Group, a: seq<Group>, b: seq<Group>)
    requires multiset(a) == multiset(b)
    ensures multiset(Row(g, a)) == multiset(Row(g, b))
  {
    if a == [] {
      EmptyPermutation(b);
    } else {
      var k := HeadInPermutation(a, b);
      RowWithout(g, b, k);
      RowPermutation(g, a[1..], Without(b, k));
    }
  }

  /** The bag of eligible pairs depends only on the bag of groups. */
  lemma {:induction false} PairsPermutation(a: seq<Group>, b: seq<Group>)
    requires multiset(a) == multiset(b)
    ensures multiset(EligiblePairs(a)) == multiset(EligiblePairs(b))
  {
    if a == [] {
      EmptyPermutation(b);
    } else {
      var k := HeadInPermutation(a, b);
      PairsWithout(b, k);
      RowPermutation(a[0], a[1..], Without(b, k));
      PairsPermutation(a[1..], Without(b, k));
    }
  }

  lemma MinimumValueOfBag(p: seq<Pair>, q: seq<Pair>, key: Pair -> int)
    requires multiset(p) == multiset(q)
    ensures |p| == |q|
    ensures p != [] ==> q != [] && key(FirstMinimum(p, key).value) == key(FirstMinimum(q, key).value)
  {
    assert |p| == |multiset(p)| && |q| == |multiset(q)|;
    if p != [] {
      var u, v := FirstMinimum(p, key).value, FirstMinimum(q, key).value;
      assert u in multiset(q) && v in multiset(p);
      assert u in q && v in p;
    }
  }

  ghost predicate SameColor(a: Option<PairRecord>, b: Option<PairRecord>) {
    (a.Some? <==> b.Some?) && (a.Some? ==> a.value.color == b.value.color)
  }

  ghost predicate SameDelta(a: Option<PairRecord>, b: Option<PairRecord>) {
    (a.Some? <==> b.Some?) && (a.Some? ==> a.value.delta == b.value.delta)
  }

  /** Listing the groups in another order changes none of the counts and neither minimum distance. */
  lemma OrderOfGroupsIrrelevant(a: seq<Group>, b: seq<Group>)
    requires multiset(a) == multiset(b)
    ensures var m, n := MeasurementOf(EligiblePairs(a), |a|), MeasurementOf(EligiblePairs(b), |b|);
            && m.eligible == n.eligible && m.excluded == n.excluded
            && m.zeroPairs == n.zeroPairs && m.dynamicZeroPairs == n.dynamicZeroPairs
            && SameColor(m.minimumColor, n.minimumColor) && SameDelta(m.minimumDelta, n.minimumDelta)
  {
    PairsPermutation(a, b);
    assert |a| == |multiset(a)| && |b| == |multiset(b)|;
    CountIfPermutation(EligiblePairs(a), EligiblePairs(b), IsZero(false));
    CountIfPermutation(EligiblePairs(a), EligiblePairs(b), IsZero(true));
    MinimumValueOfBag(EligiblePairs(a), EligiblePairs(b), ColorOf());
    MinimumValueOfBag(EligiblePairs(a), EligiblePairs(b), DeltaOf());
  }
}
