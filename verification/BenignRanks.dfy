/**
  scripts/diploma_benign_validation.py, ranks and spearman: ranks by one walk over the sorted
  positions, where equal observations share the mean of the places they take.
 */
module BenignRanks {
  import opened Wrappers
  import opened Integers
  import opened Sorting
  import opened Sums
  import opened Correlation
  import BenignStatistics

  function LessThan(v: real): real -> bool {
    (x: real) => x < v
  }

  function EqualTo(v: real): real -> bool {
    (x: real) => x == v
  }

  function Below(values: seq<real>, v: real): nat {
    CountIf(values, LessThan(v))
  }

  function Equal(values: seq<real>, v: real): nat {
    CountIf(values, EqualTo(v))
  }

  /** The mean place of an observation: all smaller ones come first, equal ones share. */
  function Rank(values: seq<real>, v: real): real {
    Below(values, v) as real + (Equal(values, v) + 1) as real / 2.0
  }

  function RanksOf(values: seq<real>): (r: seq<real>)
    ensures |r| == |values|
  {
    seq(|values|, j requires 0 <= j < |values| => Rank(values, values[j]))
  }

  /** The positions of the smaller observations. */
  ghost function SmallerAt(values: seq<real>, v: real): (s: set<int>)
    ensures forall i :: i in s <==> 0 <= i < |values| && values[i] < v
    ensures |s| == Below(values, v)
  {
    Positions(values, LessThan(v))
  }

  /** The positions of the equal observations. */
  ghost function EqualAt(values: seq<real>, v: real): (s: set<int>)
    ensures forall i :: i in s <==> 0 <= i < |values| && values[i] == v
    ensures |s| == Equal(values, v)
  {
    Positions(values, EqualTo(v))
  }

  /** A rank is the number of smaller observations and half of one more than the equal ones. */
  lemma RankCounts(values: seq<real>, j: nat)
    requires j < |values|
    ensures RanksOf(values)[j] == |SmallerAt(values, values[j])| as real + (|EqualAt(values, values[j])| + 1) as real / 2.0
  {
  }

  /** Ranks are in the order of the observations, and equal exactly where they are. */
  lemma RanksRespectOrder(values: seq<real>, i: nat, j: nat)
    requires i < |values| && j < |values|
    ensures values[i] < values[j] <==> RanksOf(values)[i] < RanksOf(values)[j]
    ensures values[i] == values[j] <==> RanksOf(values)[i] == RanksOf(values)[j]
  {
    if values[i] < values[j] {
      RanksAscend(values, i, j);
    } else if values[j] < values[i] {
      RanksAscend(values, j, i);
    }
  }

  lemma RanksAscend(values: seq<real>, i: nat, j: nat)
    requires i < |values| && j < |values| && values[i] < values[j]
    ensures RanksOf(values)[i] < RanksOf(values)[j]
  {
    var smaller, equal, above := SmallerAt(values, values[i]), EqualAt(values, values[i]), SmallerAt(values, values[j]);
    assert forall k :: k in smaller ==> k !in equal && k in above;
    assert forall k :: k in equal ==> k in above;
    JoinedSize(smaller, equal, above);
    assert i in equal && j in EqualAt(values, values[j]);
    SubsetSize({i}, equal);
    SubsetSize({j}, EqualAt(values, values[j]));
    RankCounts(values, i);
    RankCounts(values, j);
  }

  lemma JoinedSize<T>(a: set<T>, b: set<T>, c: set<T>)
    requires forall i :: i in a ==> i !in b && i in c
    requires forall i :: i in b ==> i in c
    ensures |a| + |b| <= |c|
  {
    assert a !! b && a + b <= c;
    assert |a + b| == |a| + |b|;
    SubsetSize(a + b, c);
  }

  function At(values: seq<real>, j: int): real {
    if 0 <= j < |values| then values[j] else 0.0
  }

  /** key=values.__getitem__ */
  function ByValue(values: seq<real>): (int, int) -> bool {
    (a: int, b: int) => At(values, a) <= At(values, b)
  }

  /** A property of the value at a position. */
  function OfValue(values: seq<real>, holds: real -> bool): int -> bool {
    (j: int) => holds(At(values, j))
  }

  function Identity(n: nat): (s: seq<int>)
    ensures |s| == n && forall i :: 0 <= i < n ==> s[i] == i
  {
    seq(n, i => i)
  }

  lemma {:induction false} CountThroughIndices(values: seq<real>, n: nat, holds: real -> bool)
    requires n <= |values|
    ensures CountIf(Identity(n), OfValue(values, holds)) == CountIf(values[..n], holds)
  {
    if n == 0 {
    } else {
      CountThroughIndices(values, n - 1, holds);
      assert Identity(n)[..n - 1] == Identity(n - 1);
      assert values[..n][..n - 1] == values[..n - 1];
      assert At(values, n - 1) == values[n - 1];
    }
  }

  /** Counting over the sorted positions counts over the values. */
  lemma CountOverOrder(values: seq<real>, order: seq<int>, holds: real -> bool)
    requires order == Sort(Identity(|values|), ByValue(values))
    ensures CountIf(order, OfValue(values, holds)) == CountIf(values, holds)
  {
    CountIfSort(Identity(|values|), ByValue(values), OfValue(values, holds));
    CountThroughIndices(values, |values|, holds);
    assert values[..|values|] == values;
  }

  /** A block [i, end) of equal observations among the sorted positions fixes their rank. */
  lemma BlockRank(values: seq<real>, order: seq<int>, i: nat, end: nat, v: real)
    requires order == Sort(Identity(|values|), ByValue(values))
    requires i <= end <= |order|
    requires forall k :: 0 <= k < i ==> At(values, order[k]) < v
    requires forall k :: i <= k < end ==> At(values, order[k]) == v
    requires forall k :: end <= k < |order| ==> At(values, order[k]) > v
    ensures Below(values, v) == i && Equal(values, v) == end - i
  {
    BlockCount(values, order, i, end, v, LessThan(v), true, false);
    BlockCount(values, order, i, end, v, EqualTo(v), false, true);
  }

  lemma BlockCount(values: seq<real>, order: seq<int>, i: nat, end: nat, v: real, holds: real -> bool, low: bool, mid: bool)
    requires order == Sort(Identity(|values|), ByValue(values))
    requires i <= end <= |order|
    requires forall k :: 0 <= k < i ==> holds(At(values, order[k])) == low
    requires forall k :: i <= k < end ==> holds(At(values, order[k])) == mid
    requires forall k :: end <= k < |order| ==> !holds(At(values, order[k]))
    ensures CountIf(values, holds) == (if low then i else 0) + if mid then end - i else 0
  {
    CountOverOrder(values, order, holds);
    ThreeBlocks(order, i, end, OfValue(values, holds), low, mid);
  }

  lemma ThreeBlocks(s: seq<int>, i: nat, end: nat, g: int -> bool, low: bool, mid: bool)
    requires i <= end <= |s|
    requires forall k :: 0 <= k < i ==> g(s[k]) == low
    requires forall k :: i <= k < end ==> g(s[k]) == mid
    requires forall k :: end <= k < |s| ==> !g(s[k])
    ensures CountIf(s, g) == (if low then i else 0) + if mid then end - i else 0
  {
    SplitCount(s, end, g);
    SplitCount(s[..end], i, g);
    assert s[..end][..i] == s[..i] && s[..end][i..] == s[i..end];
    CountIfUniform(s[..i], g, low);
    CountIfUniform(s[i..end], g, mid);
    CountIfUniform(s[end..], g, false);
  }

  method Ranks(values: seq<real>) returns (out: seq<real>)
    ensures out == RanksOf(values)
  {
    var order := Sort(Identity(|values|), ByValue(values));
    OrderFacts(values, order);
    out := seq(|values|, j => 0.0);
    var i := 0;
    while i < |order|
      invariant 0 <= i <= |order| && |out| == |values|
      invariant forall k :: 0 <= k < |order| ==> 0 <= order[k] < |values|
      invariant 0 < i < |order| ==> values[order[i - 1]] < values[order[i]]
      invariant forall k :: 0 <= k < i ==> out[order[k]] == Rank(values, values[order[k]])
    {
      var end := i + 1;
      while end < |order| && values[order[end]] == values[order[i]]
        invariant i < end <= |order|
        invariant forall k :: i <= k < end ==> values[order[k]] == values[order[i]]
      {
        end := end + 1;
      }
      BlockOfWalk(values, order, i, end);
      var place := (i + 1 + end) as real / 2.0;
      out := PlaceBlock(values, order, out, i, end, place);
      i := end;
    }
    forall j | 0 <= j < |values|
      ensures out[j] == RanksOf(values)[j]
    {
      assert j in order;
    }
  }

  /** Gives one block of the order its common place. */
  method PlaceBlock(values: seq<real>, order: seq<int>, out: seq<real>, i: nat, end: nat, place: real) returns (r: seq<real>)
    requires i <= end <= |order| && |out| == |values| && forall k :: 0 <= k < |order| ==> 0 <= order[k] < |values|
    requires forall k :: 0 <= k < i ==> out[order[k]] == Rank(values, values[order[k]])
    requires forall k :: i <= k < end ==> place == Rank(values, values[order[k]])
    ensures |r| == |values|
    ensures forall k :: 0 <= k < end ==> r[order[k]] == Rank(values, values[order[k]])
  {
    r := out;
    for k := i to end
      invariant |r| == |values|
      invariant forall m :: 0 <= m < k ==> r[order[m]] == Rank(values, values[order[m]])
    {
      r := r[order[k] := place];
    }
  }

  lemma OrderFacts(values: seq<real>, order: seq<int>)
    requires order == Sort(Identity(|values|), ByValue(values))
    ensures |order| == |values|
    ensures forall j :: j in order <==> 0 <= j < |values|
    ensures forall k :: 0 <= k < |order| ==> 0 <= order[k] < |values|
    ensures forall k, m :: 0 <= k < m < |order| ==> values[order[k]] <= values[order[m]]
  {
    SortPermutes(Identity(|values|), ByValue(values));
    SortSorted(Identity(|values|), ByValue(values));
    forall j | 0 <= j < |values|
      ensures j in Identity(|values|)
    {
      assert Identity(|values|)[j] == j;
    }
    assert forall k :: 0 <= k < |order| ==> order[k] in order;
    forall k, m | 0 <= k < m < |order|
      ensures values[order[k]] <= values[order[m]]
    {
      assert ByValue(values)(order[k], order[m]);
    }
  }

  /** The walk stops exactly at the ends of a run of equal values, so the assigned place is the rank. */
  lemma BlockOfWalk(values: seq<real>, order: seq<int>, i: nat, end: nat)
    requires order == Sort(Identity(|values|), ByValue(values))
    requires i < end <= |order| && forall k :: 0 <= k < |order| ==> 0 <= order[k] < |values|
    requires 0 < i ==> values[order[i - 1]] < values[order[i]]
    requires forall k :: i <= k < end ==> values[order[k]] == values[order[i]]
    requires end < |order| ==> values[order[end]] != values[order[i]]
    ensures forall k :: i <= k < end ==> Rank(values, values[order[k]]) == (i + 1 + end) as real / 2.0
  {
    OrderFacts(values, order);
    BlockRank(values, order, i, end, values[order[i]]);
  }

  // ----- what the ranks promise

  /** Twice the excess of a rank over 1/2: 2 for each smaller observation, 1 for each equal one. */
  function Weight(values: seq<real>, v: real): nat {
    2 * Below(values, v) + Equal(values, v)
  }

  function WeightSum(values: seq<real>, over: seq<real>): nat {
    if over == [] then 0 else WeightSum(values, over[..|over| - 1]) + Weight(values, over[|over| - 1])
  }

  /** A new observation x adds, for each y, one comparison seen from y; and |over| comparisons seen from x. */
  lemma {:induction false} WeightOfExtension(values: seq<real>, x: real, over: seq<real>)
    ensures WeightSum(values + [x], over) + Weight(over, x) == WeightSum(values, over) + 2 * |over|
  {
    if over == [] {
    } else {
      var k := |over| - 1;
      WeightOfExtension(values, x, over[..k]);
      assert (values + [x])[..|values|] == values;
    }
  }

  lemma {:induction false} WeightTotal(values: seq<real>)
    ensures WeightSum(values, values) == |values| * |values|
  {
    if values == [] {
    } else {
      var k := |values| - 1;
      var rest, x := values[..k], values[k];
      assert values == rest + [x];
      WeightTotal(rest);
      WeightOfExtension(rest, x, rest);
      assert (k + 1) * (k + 1) == k * k + 2 * k + 1;
    }
  }

  lemma {:induction false} RankSumByWeight(values: seq<real>, n: nat)
    requires n <= |values|
    ensures 2.0 * Sum(RanksOf(values)[..n]) == WeightSum(values, values[..n]) as real + n as real
  {
    if n == 0 {
    } else {
      RankSumByWeight(values, n - 1);
      assert RanksOf(values)[..n][..n - 1] == RanksOf(values)[..n - 1];
      assert values[..n][..n - 1] == values[..n - 1];
    }
  }

  lemma HalfOf(sum: real, square: int, n: int, product: int)
    requires 2.0 * sum == square as real + n as real && product == square + n
    ensures sum == product as real / 2.0
  {
  }

  /** However many ties there are, the ranks of n observations add up to n(n+1)/2. */
  lemma RankSum(values: seq<real>)
    ensures Sum(RanksOf(values)) == (|values| * (|values| + 1)) as real / 2.0
  {
    var n := |values|;
    RankSumByWeight(values, n);
    WeightTotal(values);
    assert RanksOf(values)[..n] == RanksOf(values) && values[..n] == values;
    HalfOf(Sum(RanksOf(values)), n * n, n, n * (n + 1));
  }

  /** The two vectors put their observations in the same order, ties included. */
  ghost predicate SameOrder(a: seq<real>, b: seq<real>) {
    |a| == |b| && forall i, j :: 0 <= i < |a| && 0 <= j < |a| ==> (a[i] < a[j] <==> b[i] < b[j])
  }

  lemma {:induction false} CountsFollowOrder(a: seq<real>, b: seq<real>, n: nat, j: nat)
    requires SameOrder(a, b) && n <= |a| && j < |a|
    ensures Below(a[..n], a[j]) == Below(b[..n], b[j]) && Equal(a[..n], a[j]) == Equal(b[..n], b[j])
  {
    if n == 0 {
    } else {
      CountsFollowOrder(a, b, n - 1, j);
      assert a[..n][..n - 1] == a[..n - 1] && b[..n][..n - 1] == b[..n - 1];
      assert a[n - 1] == a[j] <==> b[n - 1] == b[j];
    }
  }

  lemma RanksFollowOrder(a: seq<real>, b: seq<real>)
    requires SameOrder(a, b)
    ensures RanksOf(a) == RanksOf(b)
  {
    assert a[..|a|] == a && b[..|b|] == b;
    forall j | 0 <= j < |a|
      ensures RanksOf(a)[j] == RanksOf(b)[j]
    {
      CountsFollowOrder(a, b, |a|, j);
    }
  }

  // ----- Spearman

  method Spearman(x: seq<real>, y: seq<real>) returns (r: Result<Option<Ratio>>)
    ensures r == BenignStatistics.Pearson(RanksOf(x), RanksOf(y))
  {
    var a := Ranks(x);
    var b := Ranks(y);
    r := BenignStatistics.Pearson(a, b);
  }

  function Mapped(x: seq<real>, f: real -> real): (r: seq<real>)
    ensures |r| == |x|
  {
    seq(|x|, i requires 0 <= i < |x| => f(x[i]))
  }

  /** Spearman's coefficient is blind to any strictly increasing change of scale of either vector. */
  lemma SpearmanScaleFree(x: seq<real>, y: seq<real>, f: real -> real, g: real -> real)
    requires forall a, b :: a < b ==> f(a) < f(b) && g(a) < g(b)
    ensures BenignStatistics.Pearson(RanksOf(Mapped(x, f)), RanksOf(Mapped(y, g)))
         == BenignStatistics.Pearson(RanksOf(x), RanksOf(y))
  {
    RanksFollowOrder(x, Mapped(x, f));
    RanksFollowOrder(y, Mapped(y, g));
  }
}
