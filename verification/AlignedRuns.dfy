/**
  scripts/diploma_vrc_redesign_research.py: pairs of groups at least two seconds apart, and runs of
  K consecutive group starts on each side all of whose constituent pairs are such.
 */
module AlignedRuns {
  import opened Wrappers
  import opened VideoGroups
  import opened Integers
  import opened Sorting
  import opened Lists

  type Key = (int, int, int)

  datatype Run = Run(left: seq<int>, right: seq<int>)

  // ----- distant pairs

  /** b starts at least two seconds after a ends, in the same stream and geometry. */
  predicate Distant(a: Group, b: Group) {
    a.stream == b.stream && a.geometry == b.geometry && b.first - a.last >= 2.0
  }

  function PairIndex(groups: seq<Group>, i: nat, j: nat): seq<(int, int)>
    requires i < |groups| && j < |groups|
  {
    if Distant(groups[i], groups[j]) then [(i, j)]
    else if Distant(groups[j], groups[i]) then [(j, i)]
    else []
  }

  function RowOfPairs(groups: seq<Group>, i: nat, j: nat): seq<(int, int)>
    requires i < |groups|
    decreases |groups| - j
  {
    if j >= |groups| then [] else PairIndex(groups, i, j) + RowOfPairs(groups, i, j + 1)
  }

  function PairsFrom(groups: seq<Group>, i: nat): seq<(int, int)>
    decreases |groups| - i
  {
    if i >= |groups| then [] else RowOfPairs(groups, i, i + 1) + PairsFrom(groups, i + 1)
  }

  /** The body of the loop over index pairs: what it appends. */
  method Orient(groups: seq<Group>, i: nat, j: nat) returns (appended: seq<(int, int)>)
    requires i < |groups| && j < |groups|
    ensures appended == PairIndex(groups, i, j)
  {
    var a, b := groups[i], groups[j];
    if a.stream != b.stream || a.geometry != b.geometry {
      return [];
    }
    if b.first - a.last >= 2.0 {
      return [(i, j)];
    } else if a.first - b.last >= 2.0 {
      return [(j, i)];
    }
    appended := [];
  }

  method DistantPairs(groups: seq<Group>) returns (pairs: seq<(int, int)>)
    ensures pairs == PairsFrom(groups, 0)
  {
    pairs := [];
    for i := 0 to |groups|
      invariant pairs + PairsFrom(groups, i) == PairsFrom(groups, 0)
    {
      ghost var whole := pairs + RowOfPairs(groups, i, i + 1);
      Associate(pairs, RowOfPairs(groups, i, i + 1), PairsFrom(groups, i + 1));
      for j := i + 1 to |groups|
        invariant pairs + RowOfPairs(groups, i, j) == whole
      {
        var appended := Orient(groups, i, j);
        Associate(pairs, appended, RowOfPairs(groups, i, j + 1));
        pairs := pairs + appended;
      }
      assert pairs + [] == pairs;
    }
    assert pairs + [] == pairs;
  }

  lemma {:induction false} RowMembers(groups: seq<Group>, i: nat, j: nat, a: int, b: int)
    requires i < |groups|
    ensures (a, b) in RowOfPairs(groups, i, j) <==>
            && 0 <= a < |groups| && 0 <= b < |groups| && Distant(groups[a], groups[b])
            && ((a == i && j <= b) || (b == i && j <= a && !Distant(groups[i], groups[a])))
    decreases |groups| - j
  {
    if j >= |groups| {
    } else {
      RowMembers(groups, i, j + 1, a, b);
      var here, rest := PairIndex(groups, i, j), RowOfPairs(groups, i, j + 1);
      assert (a, b) in here + rest <==> (a, b) in here || (a, b) in rest;
    }
  }

  ghost predicate DistantWithin(groups: seq<Group>, i: nat, a: int, b: int) {
    i <= a < |groups| && i <= b < |groups| && TwoSecondsApart(groups[a], groups[b])
  }

  /** The same stream and geometry, and b begins two seconds after a ends, or later. */
  ghost predicate TwoSecondsApart(a: Group, b: Group) {
    a.stream == b.stream && a.geometry == b.geometry && a.last + 2.0 <= b.first
  }

  lemma {:induction false} PairsFromMembers(groups: seq<Group>, i: nat, a: int, b: int)
    ensures (a, b) in PairsFrom(groups, i) <==> DistantWithin(groups, i, a, b)
    decreases |groups| - i
  {
    if i >= |groups| {
    } else {
      var row, rest := RowOfPairs(groups, i, i + 1), PairsFrom(groups, i + 1);
      assert (a, b) in row + rest <==> (a, b) in row || (a, b) in rest;
      PairsFromMembers(groups, i + 1, a, b);
      RowExtends(groups, i, a, b);
    }
  }

  lemma RowExtends(groups: seq<Group>, i: nat, a: int, b: int)
    requires i < |groups|
    ensures (a, b) in RowOfPairs(groups, i, i + 1) || DistantWithin(groups, i + 1, a, b) <==> DistantWithin(groups, i, a, b)
  {
    RowMembers(groups, i, i + 1, a, b);
  }

  lemma {:induction false} RowNoDuplicates(groups: seq<Group>, i: nat, j: nat)
    requires i < |groups| && i < j
    ensures NoDuplicates(RowOfPairs(groups, i, j))
    decreases |groups| - j
  {
    if j >= |groups| {
    } else {
      RowNoDuplicates(groups, i, j + 1);
      var here, rest := PairIndex(groups, i, j), RowOfPairs(groups, i, j + 1);
      forall x | x in here
        ensures x !in rest
      {
        RowMembers(groups, i, j + 1, x.0, x.1);
      }
      ConcatNoDuplicates(here, rest);
    }
  }

  lemma {:induction false} PairsNoDuplicates(groups: seq<Group>, i: nat)
    ensures NoDuplicates(PairsFrom(groups, i))
    decreases |groups| - i
  {
    if i >= |groups| {
    } else {
      RowNoDuplicates(groups, i, i + 1);
      PairsNoDuplicates(groups, i + 1);
      var row, rest := RowOfPairs(groups, i, i + 1), PairsFrom(groups, i + 1);
      forall x | x in row
        ensures x !in rest
      {
        RowMembers(groups, i, i + 1, x.0, x.1);
        PairsFromMembers(groups, i + 1, x.0, x.1);
      }
      ConcatNoDuplicates(row, rest);
    }
  }

  // ----- runs

  ghost predicate DistinctKeys(groups: seq<Group>) {
    forall i, j :: 0 <= i < j < |groups| ==> groups[i].Key() != groups[j].Key()
  }

  /** {g.key: i for i, g in enumerate(groups)} */
  function Lookup(groups: seq<Group>): map<Key, int> {
    if groups == [] then map[] else Lookup(groups[..|groups| - 1])[groups[|groups| - 1].Key() := |groups| - 1]
  }

  function Get(lookup: map<Key, int>, key: Key): int {
    if key in lookup then lookup[key] else -1
  }

  /** The key n starts after a group, in the same stream and region. */
  function KeyAfter(g: Group, n: nat): Key {
    (g.stream, g.region, g.start + n)
  }

  /** The indices of k consecutive starts from a group on, -1 where one is missing. */
  function Consecutive(groups: seq<Group>, lookup: map<Key, int>, a: nat, k: nat): (r: seq<int>)
    requires a < |groups|
    ensures |r| == k
  {
    seq(k, n requires 0 <= n < k => Get(lookup, KeyAfter(groups[a], n)))
  }

  predicate Eligible(pairs: seq<(int, int)>, keep: seq<bool>, i: int, j: int) {
    (i, j) in pairs && 0 <= i < |keep| && keep[i] && 0 <= j < |keep| && keep[j]
  }

  predicate AllEligible(pairs: seq<(int, int)>, keep: seq<bool>, run: Run)
    requires |run.left| == |run.right|
  {
    forall n :: 0 <= n < |run.left| ==> Eligible(pairs, keep, run.left[n], run.right[n])
  }

  function RunAt(groups: seq<Group>, lookup: map<Key, int>, k: nat, start: (int, int)): (r: Run)
    requires 0 <= start.0 < |groups| && 0 <= start.1 < |groups|
    ensures |r.left| == |r.right| == k
  {
    Run(Consecutive(groups, lookup, start.0, k), Consecutive(groups, lookup, start.1, k))
  }

  ghost predicate InRange(groups: seq<Group>, pairs: seq<(int, int)>) {
    forall i :: 0 <= i < |pairs| ==> 0 <= pairs[i].0 < |groups| && 0 <= pairs[i].1 < |groups|
  }

  /** The run of the i-th start pair, when all its constituents are eligible. */
  function RunFrom(groups: seq<Group>, keep: seq<bool>, k: nat, pairs: seq<(int, int)>, i: nat): Option<Run>
    requires i < |pairs| && InRange(groups, pairs)
  {
    var run := RunAt(groups, Lookup(groups), k, pairs[i]);
    if AllEligible(pairs, keep, run) then Some(run) else None
  }

  /** What the start pairs give, one after the other. */
  function Attempts(groups: seq<Group>, keep: seq<bool>, k: nat, pairs: seq<(int, int)>): (r: seq<Option<Run>>)
    requires InRange(groups, pairs)
    ensures |r| == |pairs|
  {
    seq(|pairs|, i requires 0 <= i < |pairs| => RunFrom(groups, keep, k, pairs, i))
  }

  lemma PairsInRange(groups: seq<Group>)
    ensures InRange(groups, PairsFrom(groups, 0))
  {
    var pairs := PairsFrom(groups, 0);
    forall i | 0 <= i < |pairs|
      ensures 0 <= pairs[i].0 < |groups| && 0 <= pairs[i].1 < |groups|
    {
      assert (pairs[i].0, pairs[i].1) in pairs;
      PairsFromMembers(groups, 0, pairs[i].0, pairs[i].1);
    }
  }

  function RunsFor(groups: seq<Group>, keep: seq<bool>, k: nat): seq<Run> {
    var pairs := PairsFrom(groups, 0);
    PairsInRange(groups);
    Somes(Attempts(groups, keep, k, pairs))
  }

  ghost predicate HasKey(groups: seq<Group>, key: Key) {
    exists i :: 0 <= i < |groups| && groups[i].Key() == key
  }

  lemma {:induction false} LookupFinds(groups: seq<Group>, key: Key)
    ensures key in Lookup(groups) <==> HasKey(groups, key)
    ensures key in Lookup(groups) ==> 0 <= Lookup(groups)[key] < |groups| && groups[Lookup(groups)[key]].Key() == key
  {
    if groups == [] {
    } else {
      var k := |groups| - 1;
      LookupFinds(groups[..k], key);
      assert forall i :: 0 <= i < k ==> groups[..k][i] == groups[i];
      if key == groups[k].Key() {
        assert HasKey(groups, key);
      } else if key in Lookup(groups[..k]) {
        var i :| 0 <= i < k && groups[..k][i].Key() == key;
        assert groups[i].Key() == key;
      }
    }
  }

  /** Dictionary keys collapse, so the sizes agree exactly when no key repeats. */
  lemma {:induction false} LookupSize(groups: seq<Group>)
    ensures |Lookup(groups)| <= |groups|
    ensures |Lookup(groups)| == |groups| <==> DistinctKeys(groups)
  {
    if groups == [] {
    } else {
      var k := |groups| - 1;
      var rest, last := groups[..k], groups[k].Key();
      LookupSize(rest);
      LookupFinds(rest, last);
      assert Lookup(groups).Keys == Lookup(rest).Keys + {last};
      if last in Lookup(rest) {
        assert Lookup(rest).Keys + {last} == Lookup(rest).Keys;
      }
      assert |Lookup(groups)| == |Lookup(groups).Keys| && |Lookup(rest)| == |Lookup(rest).Keys|;
    }
  }

  method Aligned(groups: seq<Group>, keep: seq<bool>, k: int) returns (r: Result<seq<Run>>)
    ensures r.Failure? <==> k !in {1, 3, 5, 9} || |keep| != |groups| || !DistinctKeys(groups)
    ensures r.Success? ==> r.value == RunsFor(groups, keep, k)
  {
    if k !in {1, 3, 5, 9} || |keep| != |groups| {
      return Failure("Invalid run construction");
    }
    var lookup := Lookup(groups);
    LookupSize(groups);
    if |lookup| != |groups| {
      return Failure("Duplicate group identity");
    }
    var pairs := DistantPairs(groups);
    PairsInRange(groups);
    var runs := CollectRuns(groups, keep, k, pairs, lookup);
    r := Success(runs);
  }

  method CollectRuns(groups: seq<Group>, keep: seq<bool>, k: nat, pairs: seq<(int, int)>, lookup: map<Key, int>)
    returns (runs: seq<Run>)
    requires InRange(groups, pairs) && lookup == Lookup(groups)
    ensures runs == Somes(Attempts(groups, keep, k, pairs))
  {
    ghost var attempts := Attempts(groups, keep, k, pairs);
    runs := [];
    for m := 0 to |pairs|
      invariant runs == Somes(attempts[..m])
    {
      OneMore(attempts, m);
      assert attempts[m] == RunFrom(groups, keep, k, pairs, m);
      var run := RunAt(groups, lookup, k, pairs[m]);
      if AllEligible(pairs, keep, run) {
        runs := runs + [run];
      }
    }
    assert attempts[..|pairs|] == attempts;
  }

  // ----- what the runs are

  /** k eligible pairs whose two sides each move through consecutive starts of one stream and region. */
  ghost predicate IsRun(groups: seq<Group>, keep: seq<bool>, run: Run, k: nat)
    requires |keep| == |groups|
  {
    && |run.left| == |run.right| == k > 0
    && Indices(groups, run.left) && Indices(groups, run.right)
    && (forall n :: 0 <= n < k ==> keep[run.left[n]] && keep[run.right[n]]
                                   && TwoSecondsApart(groups[run.left[n]], groups[run.right[n]]))
    && Steps(groups, run.left) && Steps(groups, run.right)
  }

  ghost predicate Steps(groups: seq<Group>, side: seq<int>)
    requires Indices(groups, side)
  {
    forall n :: 0 <= n < |side| ==>
      && groups[side[n]].stream == groups[side[0]].stream && groups[side[n]].region == groups[side[0]].region
      && groups[side[n]].start == groups[side[0]].start + n
  }

  ghost predicate Indices(groups: seq<Group>, side: seq<int>) {
    forall n :: 0 <= n < |side| ==> 0 <= side[n] < |groups|
  }

  lemma ExactIndex(groups: seq<Group>, key: Key, i: nat)
    requires DistinctKeys(groups) && i < |groups|
    ensures Get(Lookup(groups), key) == i <==> groups[i].Key() == key
  {
    LookupFinds(groups, key);
    if groups[i].Key() == key {
      assert HasKey(groups, key);
      var j := Lookup(groups)[key];
      assert i < j || j < i || i == j;
    }
  }

  /** With distinct keys, consecutive starts name one list of indices, if they are all there. */
  lemma ConsecutiveFinds(groups: seq<Group>, side: seq<int>)
    requires DistinctKeys(groups) && side != [] && Indices(groups, side) && Steps(groups, side)
    ensures side == Consecutive(groups, Lookup(groups), side[0], |side|)
  {
    var found := Consecutive(groups, Lookup(groups), side[0], |side|);
    forall n | 0 <= n < |side|
      ensures found[n] == side[n]
    {
      ExactIndex(groups, KeyAfter(groups[side[0]], n), side[n]);
    }
  }

  lemma ConsecutiveSteps(groups: seq<Group>, a: nat, k: nat)
    requires DistinctKeys(groups) && a < |groups| && k > 0
    requires Indices(groups, Consecutive(groups, Lookup(groups), a, k))
    ensures Consecutive(groups, Lookup(groups), a, k)[0] == a
    ensures Steps(groups, Consecutive(groups, Lookup(groups), a, k))
  {
    var found := Consecutive(groups, Lookup(groups), a, k);
    ExactIndex(groups, KeyAfter(groups[a], 0), a);
    forall n | 0 <= n < k
      ensures groups[found[n]].Key() == KeyAfter(groups[found[0]], n)
    {
      ExactIndex(groups, KeyAfter(groups[a], n), found[n]);
    }
  }

  lemma EligibleExact(groups: seq<Group>, keep: seq<bool>, i: int, j: int)
    requires |keep| == |groups|
    ensures Eligible(PairsFrom(groups, 0), keep, i, j) <==>
            0 <= i < |groups| && 0 <= j < |groups| && keep[i] && keep[j] && Distant(groups[i], groups[j])
  {
    PairsFromMembers(groups, 0, i, j);
  }

  /** The runs are exactly the aligned lists of k eligible pairs: nothing else is reported, nothing is missed. */
  lemma RunsExact(groups: seq<Group>, keep: seq<bool>, k: nat, run: Run)
    requires DistinctKeys(groups) && |keep| == |groups| && k > 0
    ensures run in RunsFor(groups, keep, k) <==> IsRun(groups, keep, run, k)
  {
    var pairs := PairsFrom(groups, 0);
    PairsInRange(groups);
    var attempts := Attempts(groups, keep, k, pairs);
    SomesMembers(attempts, run);
    if run in RunsFor(groups, keep, k) {
      var i :| 0 <= i < |pairs| && attempts[i] == Some(run);
      YieldedIsRun(groups, keep, k, i, run);
    }
    if IsRun(groups, keep, run, k) {
      var i := RunIsYielded(groups, keep, k, run);
      assert attempts[i] == Some(run);
    }
  }

  lemma YieldedIsRun(groups: seq<Group>, keep: seq<bool>, k: nat, i: nat, run: Run)
    requires DistinctKeys(groups) && |keep| == |groups| && k > 0
    requires InRange(groups, PairsFrom(groups, 0)) && i < |PairsFrom(groups, 0)|
    requires RunFrom(groups, keep, k, PairsFrom(groups, 0), i) == Some(run)
    ensures IsRun(groups, keep, run, k)
    ensures (run.left[0], run.right[0]) == PairsFrom(groups, 0)[i]
  {
    var pairs := PairsFrom(groups, 0);
    forall n | 0 <= n < k
      ensures 0 <= run.left[n] < |groups| && 0 <= run.right[n] < |groups|
      ensures keep[run.left[n]] && keep[run.right[n]] && Distant(groups[run.left[n]], groups[run.right[n]])
    {
      assert Eligible(pairs, keep, run.left[n], run.right[n]);
      EligibleExact(groups, keep, run.left[n], run.right[n]);
    }
    ConsecutiveSteps(groups, pairs[i].0, k);
    ConsecutiveSteps(groups, pairs[i].1, k);
  }

  lemma RunIsYielded(groups: seq<Group>, keep: seq<bool>, k: nat, run: Run) returns (i: nat)
    requires DistinctKeys(groups) && |keep| == |groups| && IsRun(groups, keep, run, k)
    requires InRange(groups, PairsFrom(groups, 0))
    ensures i < |PairsFrom(groups, 0)| && RunFrom(groups, keep, k, PairsFrom(groups, 0), i) == Some(run)
  {
    var pairs := PairsFrom(groups, 0);
    var a, b := run.left[0], run.right[0];
    ConsecutiveFinds(groups, run.left);
    ConsecutiveFinds(groups, run.right);
    PairsFromMembers(groups, 0, a, b);
    i :| 0 <= i < |pairs| && pairs[i] == (a, b);
    forall n | 0 <= n < k
      ensures Eligible(pairs, keep, run.left[n], run.right[n])
    {
      EligibleExact(groups, keep, run.left[n], run.right[n]);
    }
    assert run == RunAt(groups, Lookup(groups), k, pairs[i]);
  }

  /** Different start pairs never give the same run. */
  lemma RunsApart(groups: seq<Group>, keep: seq<bool>, k: nat, i: nat, j: nat)
    requires DistinctKeys(groups) && |keep| == |groups| && k > 0
    requires InRange(groups, PairsFrom(groups, 0)) && i < j < |PairsFrom(groups, 0)|
    requires RunFrom(groups, keep, k, PairsFrom(groups, 0), i).Some?
    ensures RunFrom(groups, keep, k, PairsFrom(groups, 0), i) != RunFrom(groups, keep, k, PairsFrom(groups, 0), j)
  {
    var run := RunFrom(groups, keep, k, PairsFrom(groups, 0), i).value;
    PairsNoDuplicates(groups, 0);
    YieldedIsRun(groups, keep, k, i, run);
    if RunFrom(groups, keep, k, PairsFrom(groups, 0), j) == Some(run) {
      YieldedIsRun(groups, keep, k, j, run);
    }
  }

  /** Every run is reported once. */
  lemma RunsNoDuplicates(groups: seq<Group>, keep: seq<bool>, k: nat)
    requires DistinctKeys(groups) && |keep| == |groups| && k > 0
    ensures NoDuplicates(RunsFor(groups, keep, k))
  {
    var pairs := PairsFrom(groups, 0);
    PairsInRange(groups);
    var attempts := Attempts(groups, keep, k, pairs);
    forall i, j | 0 <= i < j < |pairs| && attempts[i].Some?
      ensures attempts[i] != attempts[j]
    {
      RunsApart(groups, keep, k, i, j);
    }
    SomesNoDuplicates(attempts);
  }

  /** Any stretch of a run is itself a run of that length. */
  lemma StretchOfRun(groups: seq<Group>, keep: seq<bool>, run: Run, k: nat, start: nat, end: nat)
    requires |keep| == |groups| && IsRun(groups, keep, run, k) && start < end <= k
    ensures IsRun(groups, keep, Run(run.left[start..end], run.right[start..end]), end - start)
  {
    var left, right := run.left[start..end], run.right[start..end];
    assert forall n :: 0 <= n < end - start ==> left[n] == run.left[start + n] && right[n] == run.right[start + n];
  }

  function Opening(run: Run, m: nat): Run {
    if m <= |run.left| && m <= |run.right| then Run(run.left[..m], run.right[..m]) else run
  }

  lemma OpeningIsRun(groups: seq<Group>, keep: seq<bool>, run: Run, m: nat, k: nat)
    requires DistinctKeys(groups) && |keep| == |groups| && 0 < m <= k
    requires run in RunsFor(groups, keep, k)
    ensures IsRun(groups, keep, run, k)
    ensures Opening(run, m) in RunsFor(groups, keep, m)
  {
    RunsExact(groups, keep, k, run);
    StretchOfRun(groups, keep, run, k, 0, m);
    assert Opening(run, m) == Run(run.left[0..m], run.right[0..m]);
    RunsExact(groups, keep, m, Opening(run, m));
  }

  /** A run is known by where it starts. */
  lemma SameOpeningSameRun(groups: seq<Group>, keep: seq<bool>, p: Run, q: Run, m: nat, k: nat)
    requires DistinctKeys(groups) && |keep| == |groups| && 0 < m <= k
    requires IsRun(groups, keep, p, k) && IsRun(groups, keep, q, k) && Opening(p, m) == Opening(q, m)
    ensures p == q
  {
    assert p.left[..m][0] == q.left[..m][0] && p.right[..m][0] == q.right[..m][0];
    ConsecutiveFinds(groups, p.left);
    ConsecutiveFinds(groups, q.left);
    ConsecutiveFinds(groups, p.right);
    ConsecutiveFinds(groups, q.right);
  }

  /** Longer runs are never more numerous: their openings are distinct shorter runs. */
  lemma RunCountAntitone(groups: seq<Group>, keep: seq<bool>, m: nat, k: nat)
    requires DistinctKeys(groups) && |keep| == |groups| && 0 < m <= k
    ensures |RunsFor(groups, keep, k)| <= |RunsFor(groups, keep, m)|
  {
    var long, short := RunsFor(groups, keep, k), RunsFor(groups, keep, m);
    RunsNoDuplicates(groups, keep, k);
    var opening := seq(|long|, i requires 0 <= i < |long| => Opening(long[i], m));
    forall i | 0 <= i < |long|
      ensures IsRun(groups, keep, long[i], k) && opening[i] in short
    {
      OpeningIsRun(groups, keep, long[i], m, k);
    }
    forall i, j | 0 <= i < j < |opening|
      ensures opening[i] != opening[j]
    {
      if opening[i] == opening[j] {
        SameOpeningSameRun(groups, keep, long[i], long[j], m, k);
      }
    }
    DistinctFit(opening, short);
  }
}
