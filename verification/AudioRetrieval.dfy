/**
  src/fakedetector/analyzers/_audio_repeated.py: seeds, the streaming retrieval of the nearest
  descriptor pairs, and the lag range that a retrieved pair is measured over.
 */
module AudioRetrieval {
  import opened Wrappers
  import opened Integers
  import opened Sorting
  import Sums
  import Correlation
  import AudioNcc

  const NEIGHBOURS: nat := 4
  const CANDIDATES: nat := 64
  const SEED_STEP: nat := 4096
  const SEED_CAP: nat := 256
  const LAG: int := 4096
  const BANDS: nat := 64

  datatype Window = Window(start: int, count: int)

  datatype Seed = Seed(window: nat, local: int, absolute: int)

  /** Four quarters of sixteen band sums. */
  type Vector = v: seq<real> | |v| == BANDS witness seq(BANDS, i => 0.0)

  type Channels = seq<Option<Vector>>

  datatype RawTable = RawTable(seeds: seq<Seed>, descriptors: seq<Channels>, length: int, channels: nat)

  ghost predicate Rectangular(t: RawTable) {
    |t.descriptors| == |t.seeds| && forall i :: 0 <= i < |t.descriptors| ==> |t.descriptors[i]| == t.channels
  }

  /** The seeds and, for every seed, one descriptor per channel or none. */
  type Table = t: RawTable | Rectangular(t) witness RawTable([], [], 0, 0)

  /** The (distance, int, int) triples that both lists hold and sort. */
  datatype Entry = Entry(distance: real, first: int, second: int)

  predicate EntryAtMost(a: Entry, b: Entry) {
    if a.distance != b.distance then a.distance < b.distance
    else if a.first != b.first then a.first < b.first
    else a.second <= b.second
  }

  /** Triples are compared by distance, then by the first number, then by the second. */
  lemma EntryOrder()
    ensures TotalPreorder(EntryAtMost) && Antisymmetric(EntryAtMost)
    ensures forall a, b :: EntryAtMost(a, b) <==>
              || a.distance < b.distance
              || (a.distance == b.distance && (a.first < b.first || (a.first == b.first && a.second <= b.second)))
  {
  }

  /** sum((a - b) ** 2) */
  function SquaredGap(a: seq<real>, b: seq<real>): real
    requires |a| == |b|
  {
    var d := Sums.Minus(a, b);
    Sums.Dot(d, d)
  }

  /** What the gap measures: on one coordinate the squared difference, and on a split vector the
      sum of the gaps of its parts. */
  lemma GapByCoordinates(a: seq<real>, b: seq<real>, c: seq<real>, d: seq<real>)
    requires |a| == |b| && |c| == |d|
    ensures SquaredGap(a + c, b + d) == SquaredGap(a, b) + SquaredGap(c, d)
    ensures |a| == 1 ==> SquaredGap(a, b) == (a[0] - b[0]) * (a[0] - b[0])
  {
    assert Sums.Minus(a + c, b + d) == Sums.Minus(a, b) + Sums.Minus(c, d);
    Sums.DotConcat(Sums.Minus(a, b), Sums.Minus(a, b), Sums.Minus(c, d), Sums.Minus(c, d));
    if |a| == 1 {
      var e := Sums.Minus(a, b);
      assert Sums.Dot(e[..0], e[..0]) == 0.0;
    }
  }

  /** A gap is nonnegative, symmetric, and 0 exactly between equal descriptors. */
  lemma GapIsDistance(a: seq<real>, b: seq<real>)
    requires |a| == |b|
    ensures SquaredGap(a, b) >= 0.0 && SquaredGap(a, b) == SquaredGap(b, a)
    ensures SquaredGap(a, b) == 0.0 <==> a == b
  {
    var d := Sums.Minus(a, b);
    Sums.DotSquareNonNegative(d);
    Correlation.DotSelfZero(d);
    assert Sums.Minus(b, a) == Sums.Scaled(-1.0, d);
    Sums.DotScaled(-1.0, d, d);
    Sums.DotScaled(-1.0, d, Sums.Scaled(-1.0, d));
    assert forall i :: 0 <= i < |a| ==> d[i] == a[i] - b[i];
    if forall i :: 0 <= i < |a| ==> d[i] == 0.0 {
      assert a == b;
    }
  }

  /** Both seeds have a descriptor in the channel. */
  predicate Present(t: Table, i: nat, j: nat, c: nat)
    requires i < |t.seeds| && j < |t.seeds| && c < t.channels
  {
    t.descriptors[i][c].Some? && t.descriptors[j][c].Some?
  }

  function Gap(t: Table, i: nat, j: nat, c: nat): real
    requires i < |t.seeds| && j < |t.seeds| && c < t.channels && Present(t, i, j, c)
  {
    SquaredGap(t.descriptors[i][c].value, t.descriptors[j][c].value)
  }

  /** The later of two seeds in list order starts at least two lengths behind the earlier. */
  predicate Apart(t: Table, i: nat, j: nat)
    requires i < |t.seeds| && j < |t.seeds|
  {
    t.seeds[j].absolute - t.seeds[i].absolute >= 2 * t.length
  }

  /** The retrieval compares this pair in this channel. */
  predicate Compared(t: Table, i: int, j: int, c: nat)
    requires c < t.channels
  {
    0 <= i < j < |t.seeds| && Apart(t, i, j) && Present(t, i, j, c)
  }

  /** The later seed of the list starts at least two lengths behind the earlier, and both have a
      descriptor in the channel. */
  lemma ComparedExactly(t: Table, i: int, j: int, c: nat)
    requires c < t.channels
    ensures Compared(t, i, j, c) <==>
              && 0 <= i < j < |t.seeds| && t.seeds[j].absolute - t.seeds[i].absolute >= 2 * t.length
              && t.descriptors[i][c].Some? && t.descriptors[j][c].Some?
  {
  }

  /** Seed k enters the list of seed o in channel c. */
  predicate Enters(t: Table, o: nat, k: nat, c: nat)
    requires c < t.channels
  {
    Compared(t, Min(o, k), Max(o, k), c)
  }

  function EntryFor(t: Table, o: nat, k: nat, c: nat): Entry
    requires c < t.channels && Enters(t, o, k, c)
  {
    Entry(Gap(t, Min(o, k), Max(o, k), c), t.seeds[k].absolute, k)
  }

  /** All entries of seed o in channel c among the first m seeds. */
  function Entries(t: Table, o: nat, c: nat, m: nat): seq<Entry>
    requires c < t.channels
  {
    if m == 0 then []
    else Entries(t, o, c, m - 1) + if Enters(t, o, m - 1, c) then [EntryFor(t, o, m - 1, c)] else []
  }

  /** Sort everything and take four. */
  function Nearest(t: Table, o: nat, c: nat, m: nat): seq<Entry>
    requires c < t.channels
  {
    Take(Sort(Entries(t, o, c, m), EntryAtMost), NEIGHBOURS)
  }

  /** The first four of everything, sorted, or all of it. */
  lemma NearestAreFour(t: Table, o: nat, c: nat, m: nat)
    requires c < t.channels
    ensures var all, r := Sort(Entries(t, o, c, m), EntryAtMost), Nearest(t, o, c, m);
            |r| == (if |all| < 4 then |all| else 4) && r == all[..|r|]
  {
  }

  // ----- the streaming lists

  /** append, sort, del [4:] */
  function Append(items: seq<Entry>, e: Entry): seq<Entry> {
    Take(Sort(items + [e], EntryAtMost), NEIGHBOURS)
  }

  lemma NearestStep(t: Table, o: nat, c: nat, m: nat)
    requires c < t.channels
    ensures Nearest(t, o, c, m + 1)
            == if Enters(t, o, m, c) then Append(Nearest(t, o, c, m), EntryFor(t, o, m, c)) else Nearest(t, o, c, m)
  {
    if Enters(t, o, m, c) {
      EntryOrder();
      TruncatedSort(Entries(t, o, c, m), EntryFor(t, o, m, c), NEIGHBOURS, EntryAtMost);
    } else {
      assert Entries(t, o, c, m) + [] == Entries(t, o, c, m);
    }
  }

  type Lists = seq<seq<Entry>>

  /** The lists of seed o once the first m seeds were offered to it. */
  function ListsOf(t: Table, o: nat, m: nat): (r: Lists)
    ensures |r| == t.channels
  {
    seq(t.channels, c requires 0 <= c < t.channels => Nearest(t, o, c, m))
  }

  lemma ListsStep(t: Table, o: nat, m: nat, lists: Lists)
    requires |lists| == t.channels
    requires forall c :: 0 <= c < t.channels ==>
               lists[c] == if Enters(t, o, m, c) then Append(Nearest(t, o, c, m), EntryFor(t, o, m, c)) else Nearest(t, o, c, m)
    ensures lists == ListsOf(t, o, m + 1)
  {
    forall c | 0 <= c < t.channels
      ensures lists[c] == Nearest(t, o, c, m + 1)
    {
      NearestStep(t, o, c, m);
    }
  }

  /** Nothing is offered to a seed by itself, or by a seed that is not apart from it. */
  lemma ListsSkip(t: Table, o: nat, m: nat)
    requires m < |t.seeds| && o < |t.seeds| && (o == m || !Apart(t, Min(o, m), Max(o, m)))
    ensures ListsOf(t, o, m + 1) == ListsOf(t, o, m)
  {
    ListsStep(t, o, m, ListsOf(t, o, m));
  }

  /** One pair (i, j): where it is apart, j is offered to i and i to j in every channel. */
  method OfferPair(t: Table, i: nat, j: nat, first: Lists, second: Lists) returns (a: Lists, b: Lists)
    requires i < j < |t.seeds|
    requires first == ListsOf(t, i, j) && second == ListsOf(t, j, i)
    ensures a == ListsOf(t, i, j + 1) && b == ListsOf(t, j, i + 1)
  {
    a, b := first, second;
    if !Apart(t, i, j) {
      ListsSkip(t, i, j);
      ListsSkip(t, j, i);
      return;
    }
    for c := 0 to t.channels
      invariant |a| == |b| == t.channels
      invariant forall k :: c <= k < t.channels ==> a[k] == first[k] && b[k] == second[k]
      invariant forall k :: 0 <= k < c ==>
                  && a[k] == (if Enters(t, i, j, k) then Append(first[k], EntryFor(t, i, j, k)) else first[k])
                  && b[k] == (if Enters(t, j, i, k) then Append(second[k], EntryFor(t, j, i, k)) else second[k])
    {
      if Present(t, i, j, c) {
        var distance := Gap(t, i, j, c);
        a := a[c := Append(a[c], Entry(distance, t.seeds[j].absolute, j))];
        b := b[c := Append(b[c], Entry(distance, t.seeds[i].absolute, i))];
      }
    }
    ListsStep(t, i, j, a);
    ListsStep(t, j, i, b);
  }

  /** Where the lists stand when seed i has met the seeds from i + 1 to j - 1. */
  ghost predicate Reached(t: Table, top: seq<Lists>, i: nat, j: nat) {
    && |top| == |t.seeds|
    && (forall o :: 0 <= o < i && o < |top| ==> top[o] == ListsOf(t, o, |t.seeds|))
    && (i < |top| ==> top[i] == ListsOf(t, i, j))
    && (forall o :: i < o < j && o < |top| ==> top[o] == ListsOf(t, o, i + 1))
    && (forall o :: i < o < |top| && j <= o ==> top[o] == ListsOf(t, o, i))
  }

  method OfferRow(t: Table, i: nat, top: seq<Lists>) returns (r: seq<Lists>)
    requires i < |t.seeds| && Reached(t, top, i, i + 1)
    ensures Reached(t, r, i, |t.seeds|)
  {
    r := top;
    for j := i + 1 to |t.seeds|
      invariant Reached(t, r, i, j)
    {
      var a, b := OfferPair(t, i, j, r[i], r[j]);
      r := r[i := a][j := b];
    }
  }

  /** Each list holds the first four of all its entries, sorted. */
  method Streamed(t: Table) returns (top: seq<Lists>)
    ensures |top| == |t.seeds|
    ensures forall o :: 0 <= o < |top| ==> top[o] == ListsOf(t, o, |t.seeds|)
  {
    top := seq(|t.seeds|, o => seq(t.channels, c => []));
    for i := 0 to |t.seeds|
      invariant Reached(t, top, i, i)
    {
      ListsSkip(t, i, i);
      top := OfferRow(t, i, top);
    }
  }

  // ----- what the lists hold

  lemma {:induction false} EntriesMembers(t: Table, o: nat, c: nat, m: nat, e: Entry)
    requires c < t.channels
    ensures e in Entries(t, o, c, m) <==> 0 <= e.second < m && Enters(t, o, e.second, c) && e == EntryFor(t, o, e.second, c)
  {
    if m == 0 {
    } else {
      EntriesMembers(t, o, c, m - 1, e);
      var rest, here := Entries(t, o, c, m - 1), if Enters(t, o, m - 1, c) then [EntryFor(t, o, m - 1, c)] else [];
      assert e in rest + here <==> e in rest || e in here;
    }
  }

  /** A list keeps only its own entries, and keeps one at most as far as any given entry. */
  lemma NearestHead(t: Table, o: nat, c: nat, m: nat, e: Entry)
    requires c < t.channels && e in Entries(t, o, c, m)
    ensures Nearest(t, o, c, m) != [] && Nearest(t, o, c, m)[0] in Entries(t, o, c, m)
    ensures Nearest(t, o, c, m)[0].distance <= e.distance
  {
    var all := Entries(t, o, c, m);
    EntryOrder();
    SortSorted(all, EntryAtMost);
    SortPermutes(all, EntryAtMost);
    var sorted := Sort(all, EntryAtMost);
    var i :| 0 <= i < |sorted| && sorted[i] == e;
    assert EntryAtMost(sorted[0], sorted[i]);
  }

  lemma NearestMember(t: Table, o: nat, c: nat, m: nat, e: Entry)
    requires c < t.channels && e in Nearest(t, o, c, m)
    ensures 0 <= e.second < m && Enters(t, o, e.second, c) && e == EntryFor(t, o, e.second, c)
  {
    SortPermutes(Entries(t, o, c, m), EntryAtMost);
    assert e in Sort(Entries(t, o, c, m), EntryAtMost);
    EntriesMembers(t, o, c, m, e);
  }

  // ----- nominations

  function Ordered(i: int, j: int): (int, int) {
    (Min(i, j), Max(i, j))
  }

  function FromItems(o: nat, items: seq<Entry>): set<(int, int)> {
    if items == [] then {} else FromItems(o, items[..|items| - 1]) + {Ordered(o, items[|items| - 1].second)}
  }

  function FromLists(o: nat, lists: Lists): set<(int, int)> {
    if lists == [] then {} else FromLists(o, lists[..|lists| - 1]) + FromItems(o, lists[|lists| - 1])
  }

  function FromTop(top: seq<Lists>): set<(int, int)> {
    if top == [] then {} else FromTop(top[..|top| - 1]) + FromLists(|top| - 1, top[|top| - 1])
  }

  method Nominations(top: seq<Lists>) returns (nominations: set<(int, int)>)
    ensures nominations == FromTop(top)
  {
    nominations := {};
    for i := 0 to |top|
      invariant nominations == FromTop(top[..i])
    {
      ghost var before := nominations;
      assert top[..i + 1][..i] == top[..i];
      var rows := top[i];
      for c := 0 to |rows|
        invariant nominations == before + FromLists(i, rows[..c])
      {
        ghost var here := nominations;
        assert rows[..c + 1][..c] == rows[..c];
        var items := rows[c];
        for k := 0 to |items|
          invariant nominations == here + FromItems(i, items[..k])
        {
          assert items[..k + 1][..k] == items[..k];
          nominations := nominations + {Ordered(i, items[k].second)};
        }
        assert items[..|items|] == items;
      }
      assert rows[..|rows|] == rows;
    }
    assert top[..|top|] == top;
  }

  ghost predicate ItemNames(o: nat, items: seq<Entry>, p: (int, int)) {
    exists e :: e in items && p == Ordered(o, e.second)
  }

  ghost predicate ListNames(o: nat, lists: Lists, p: (int, int)) {
    exists c :: 0 <= c < |lists| && ItemNames(o, lists[c], p)
  }

  ghost predicate TopNames(top: seq<Lists>, p: (int, int)) {
    exists o :: 0 <= o < |top| && ListNames(o, top[o], p)
  }

  lemma {:induction false} FromItemsMembers(o: nat, items: seq<Entry>, p: (int, int))
    ensures p in FromItems(o, items) <==> ItemNames(o, items, p)
  {
    if items == [] {
    } else {
      var k := |items| - 1;
      FromItemsMembers(o, items[..k], p);
      assert forall e :: e in items <==> e in items[..k] || e == items[k];
    }
  }

  lemma {:induction false} FromListsMembers(o: nat, lists: Lists, p: (int, int))
    ensures p in FromLists(o, lists) <==> ListNames(o, lists, p)
  {
    if lists == [] {
    } else {
      var k := |lists| - 1;
      FromListsMembers(o, lists[..k], p);
      FromItemsMembers(o, lists[k], p);
      assert forall c :: 0 <= c < k ==> lists[..k][c] == lists[c];
    }
  }

  lemma {:induction false} FromTopMembers(top: seq<Lists>, p: (int, int))
    ensures p in FromTop(top) <==> TopNames(top, p)
  {
    if top == [] {
    } else {
      var k := |top| - 1;
      FromTopMembers(top[..k], p);
      FromListsMembers(k, top[k], p);
      assert forall o :: 0 <= o < k ==> top[..k][o] == top[o];
    }
  }

  /** Seed o keeps seed k among its nearest in channel c. */
  ghost predicate Keeps(t: Table, o: nat, k: nat, c: nat)
    requires c < t.channels
  {
    exists e :: e in Nearest(t, o, c, |t.seeds|) && e.second == k
  }

  /** One of the two seeds keeps the other in some channel. */
  ghost predicate Nominated(t: Table, i: int, j: int) {
    0 <= i < j < |t.seeds| && exists c :: 0 <= c < t.channels && (Keeps(t, i, j, c) || Keeps(t, j, i, c))
  }

  lemma KeptIsNominated(t: Table, o: nat, c: nat, e: Entry)
    requires o < |t.seeds| && c < t.channels && e in Nearest(t, o, c, |t.seeds|)
    ensures Nominated(t, Min(o, e.second), Max(o, e.second))
  {
    NearestMember(t, o, c, |t.seeds|, e);
    assert Keeps(t, o, e.second, c);
  }

  lemma NamedIsKept(t: Table, top: seq<Lists>, p: (int, int))
    requires |top| == |t.seeds| && forall o :: 0 <= o < |top| ==> top[o] == ListsOf(t, o, |t.seeds|)
    requires TopNames(top, p)
    ensures Nominated(t, p.0, p.1)
  {
    var o: nat :| 0 <= o < |top| && ListNames(o, top[o], p);
    var c: nat :| 0 <= c < t.channels && ItemNames(o, top[o][c], p);
    var e :| e in top[o][c] && p == Ordered(o, e.second);
    KeptIsNominated(t, o, c, e);
  }

  lemma KeptIsNamed(t: Table, top: seq<Lists>, o: nat, k: nat, c: nat)
    requires |top| == |t.seeds| && forall o :: 0 <= o < |top| ==> top[o] == ListsOf(t, o, |t.seeds|)
    requires o < |t.seeds| && c < t.channels && Keeps(t, o, k, c)
    ensures TopNames(top, Ordered(o, k))
  {
    var e :| e in Nearest(t, o, c, |t.seeds|) && e.second == k;
    assert top[o][c] == Nearest(t, o, c, |t.seeds|);
    assert ItemNames(o, top[o][c], Ordered(o, k));
    assert ListNames(o, top[o], Ordered(o, k));
  }

  lemma NominatedPairs(t: Table, top: seq<Lists>, i: int, j: int)
    requires |top| == |t.seeds| && forall o :: 0 <= o < |top| ==> top[o] == ListsOf(t, o, |t.seeds|)
    ensures (i, j) in FromTop(top) <==> Nominated(t, i, j)
  {
    FromTopMembers(top, (i, j));
    if TopNames(top, (i, j)) {
      NamedIsKept(t, top, (i, j));
    }
    if Nominated(t, i, j) {
      var c :| 0 <= c < t.channels && (Keeps(t, i, j, c) || Keeps(t, j, i, c));
      if Keeps(t, i, j, c) {
        KeptIsNamed(t, top, i, j, c);
      } else {
        KeptIsNamed(t, top, j, i, c);
      }
    }
  }

  // ----- the ranking of the nominated pairs

  /** The distances of a pair over the first m channels where both seeds have descriptors. */
  function Distances(t: Table, i: nat, j: nat, m: nat): seq<real>
    requires i < |t.seeds| && j < |t.seeds| && m <= t.channels
  {
    if m == 0 then [] else Distances(t, i, j, m - 1) + if Present(t, i, j, m - 1) then [Gap(t, i, j, m - 1)] else []
  }

  ghost predicate HasGap(t: Table, i: nat, j: nat, m: nat, d: real)
    requires i < |t.seeds| && j < |t.seeds| && m <= t.channels
  {
    exists c :: 0 <= c < m && Present(t, i, j, c) && Gap(t, i, j, c) == d
  }

  lemma {:induction false} DistancesMembers(t: Table, i: nat, j: nat, m: nat, d: real)
    requires i < |t.seeds| && j < |t.seeds| && m <= t.channels
    ensures d in Distances(t, i, j, m) <==> HasGap(t, i, j, m, d)
  {
    if m == 0 {
    } else {
      DistancesMembers(t, i, j, m - 1, d);
      var rest, here := Distances(t, i, j, m - 1), if Present(t, i, j, m - 1) then [Gap(t, i, j, m - 1)] else [];
      assert d in rest + here <==> d in rest || d in here;
    }
  }

  /** A nominated pair was compared in some channel, so there is a distance to take the least of. */
  lemma NominatedCompared(t: Table, i: int, j: int) returns (c: nat)
    requires Nominated(t, i, j)
    ensures c < t.channels && Compared(t, i, j, c)
    ensures Distances(t, i, j, t.channels) != []
  {
    c :| 0 <= c < t.channels && (Keeps(t, i, j, c) || Keeps(t, j, i, c));
    var o, k := if Keeps(t, i, j, c) then i else j, if Keeps(t, i, j, c) then j else i;
    var e :| e in Nearest(t, o, c, |t.seeds|) && e.second == k;
    NearestMember(t, o, c, |t.seeds|, e);
    DistancesMembers(t, i, j, t.channels, Gap(t, i, j, c));
  }

  function LeastDistance(t: Table, i: nat, j: nat): real
    requires i < |t.seeds| && j < |t.seeds| && Distances(t, i, j, t.channels) != []
  {
    Sums.Min(Distances(t, i, j, t.channels))
  }

  ghost predicate Ranked(t: Table, e: Entry) {
    && Nominated(t, e.first, e.second)
    && Distances(t, e.first, e.second, t.channels) != []
    && e.distance == LeastDistance(t, e.first, e.second)
  }

  /** Every nominated pair once, with its least distance, in order. */
  ghost predicate Ranking(t: Table, full: seq<Entry>) {
    Sorted(full, EntryAtMost) && forall e :: multiset(full)[e] == if Ranked(t, e) then 1 else 0
  }

  method DistancesOf(t: Table, i: nat, j: nat) returns (distances: seq<real>)
    requires i < |t.seeds| && j < |t.seeds|
    ensures distances == Distances(t, i, j, t.channels)
  {
    distances := [];
    for c := 0 to t.channels
      invariant distances == Distances(t, i, j, c)
    {
      if Present(t, i, j, c) {
        distances := distances + [Gap(t, i, j, c)];
      }
    }
  }

  ghost predicate RankedIn(t: Table, pairs: set<(int, int)>, e: Entry) {
    (e.first, e.second) in pairs && Ranked(t, e)
  }

  method Retrieve(t: Table) returns (pairs: seq<Entry>, count: nat)
    ensures exists full :: Ranking(t, full) && count == |full| && pairs == Take(full, 64)
    ensures HasRepeat(t) ==> pairs != [] && pairs[0].distance == 0.0 && Repeats(t, pairs[0].first, pairs[0].second)
  {
    var top := Streamed(t);
    var nominations := Nominations(top);
    forall i, j
      ensures (i, j) in nominations <==> Nominated(t, i, j)
    {
      NominatedPairs(t, top, i, j);
    }
    var rest, list: seq<Entry> := nominations, [];
    while rest != {}
      invariant rest <= nominations
      invariant forall e :: multiset(list)[e] == if RankedIn(t, nominations - rest, e) then 1 else 0
      decreases rest
    {
      var p :| p in rest;
      var c := NominatedCompared(t, p.0, p.1);
      var distances := DistancesOf(t, p.0, p.1);
      var e := Entry(Sums.Min(distances), p.0, p.1);
      assert multiset(list + [e]) == multiset(list) + multiset{e};
      list, rest := list + [e], rest - {p};
    }
    ghost var sorted := Sort(list, EntryAtMost);
    EntryOrder();
    SortSorted(list, EntryAtMost);
    SortPermutes(list, EntryAtMost);
    assert Ranking(t, sorted);
    list := Sort(list, EntryAtMost);
    if HasRepeat(t) {
      RepeatRanksFirst(t, list);
    }
    pairs, count := Take(list, CANDIDATES), |list|;
  }

  /** Two seeds that are far enough apart have equal descriptors in some channel. */
  ghost predicate Repeats(t: Table, i: int, j: int) {
    && 0 <= i < j < |t.seeds| && t.seeds[j].absolute - t.seeds[i].absolute >= 2 * t.length
    && exists c :: 0 <= c < t.channels && t.descriptors[i][c].Some? && t.descriptors[i][c] == t.descriptors[j][c]
  }

  ghost predicate HasRepeat(t: Table) {
    exists i, j :: Repeats(t, i, j)
  }

  /** Whenever there is an exact repeat, the first ranked pair is one, at distance 0. */
  lemma RepeatRanksFirst(t: Table, full: seq<Entry>)
    requires Ranking(t, full) && HasRepeat(t)
    ensures full != [] && full[0].distance == 0.0 && Repeats(t, full[0].first, full[0].second)
  {
    var i, j :| Repeats(t, i, j);
    var c :| 0 <= c < t.channels && t.descriptors[i][c].Some? && t.descriptors[i][c] == t.descriptors[j][c];
    GapIsDistance(t.descriptors[i][c].value, t.descriptors[j][c].value);
    FirstIsGlobalMinimum(t, full);
    assert Compared(t, i, j, c) && Gap(t, i, j, c) == 0.0;
    var k: nat :| k < t.channels && Compared(t, full[0].first, full[0].second, k)
                  && full[0].distance == Gap(t, full[0].first, full[0].second, k);
    GapIsDistance(t.descriptors[full[0].first][k].value, t.descriptors[full[0].second][k].value);
  }

  /** The ranking does not depend on the order in which the nominations are visited. */
  lemma RankingUnique(t: Table, a: seq<Entry>, b: seq<Entry>)
    requires Ranking(t, a) && Ranking(t, b)
    ensures a == b
  {
    EntryOrder();
    assert forall e :: multiset(a)[e] == multiset(b)[e];
    assert multiset(a) == multiset(b);
    SortedUnique(a, b, EntryAtMost);
  }

  lemma RankedMember(t: Table, full: seq<Entry>, e: Entry)
    requires Ranking(t, full)
    ensures e in full <==> Ranked(t, e)
  {
    assert e in full <==> e in multiset(full);
  }

  /** A ranked pair carries a distance it has in some channel, and has none lower in any. */
  lemma RankedIsLeast(t: Table, e: Entry) returns (c: nat)
    requires Ranked(t, e)
    ensures c < t.channels && Compared(t, e.first, e.second, c) && e.distance == Gap(t, e.first, e.second, c)
    ensures forall k :: 0 <= k < t.channels && Present(t, e.first, e.second, k) ==>
              e.distance <= Gap(t, e.first, e.second, k)
  {
    var i, j := e.first, e.second;
    var shared := NominatedCompared(t, i, j);
    Sums.MinIsLeast(Distances(t, i, j, t.channels));
    DistancesMembers(t, i, j, t.channels, e.distance);
    c :| 0 <= c < t.channels && Present(t, i, j, c) && Gap(t, i, j, c) == e.distance;
    forall k | 0 <= k < t.channels && Present(t, i, j, k)
      ensures e.distance <= Gap(t, i, j, k)
    {
      DistancesMembers(t, i, j, t.channels, Gap(t, i, j, k));
    }
  }

  /** Whatever is compared anywhere, some ranked pair is at least as near. */
  lemma NearestIsRanked(t: Table, i: nat, j: nat, c: nat) returns (e: Entry)
    requires c < t.channels && Compared(t, i, j, c)
    ensures Ranked(t, e) && e.distance <= Gap(t, i, j, c)
  {
    var n := |t.seeds|;
    EntriesMembers(t, i, c, n, EntryFor(t, i, j, c));
    NearestHead(t, i, c, n, EntryFor(t, i, j, c));
    var h := Nearest(t, i, c, n)[0];
    NearestMember(t, i, c, n, h);
    KeptIsNominated(t, i, c, h);
    var p, q := Min(i, h.second), Max(i, h.second);
    var shared := NominatedCompared(t, p, q);
    e := Entry(LeastDistance(t, p, q), p, q);
    Sums.MinIsLeast(Distances(t, p, q, t.channels));
    DistancesMembers(t, p, q, t.channels, h.distance);
  }

  /** The four-nearest lists lose no global minimum: pairs are returned exactly when any were
      compared, and the first has the least distance of all compared pairs and channels. */
  lemma FirstIsGlobalMinimum(t: Table, full: seq<Entry>)
    requires Ranking(t, full)
    ensures full != [] <==> exists i, j, c: nat :: c < t.channels && Compared(t, i, j, c)
    ensures full != [] ==> exists c: nat :: c < t.channels && Compared(t, full[0].first, full[0].second, c)
                                            && full[0].distance == Gap(t, full[0].first, full[0].second, c)
    ensures forall i: nat, j: nat, c: nat :: c < t.channels && Compared(t, i, j, c) ==> full[0].distance <= Gap(t, i, j, c)
  {
    if full != [] {
      RankedMember(t, full, full[0]);
      var c := RankedIsLeast(t, full[0]);
    }
    forall i: nat, j: nat, c: nat | c < t.channels && Compared(t, i, j, c)
      ensures full != [] && full[0].distance <= Gap(t, i, j, c)
    {
      var e := NearestIsRanked(t, i, j, c);
      RankedMember(t, full, e);
      var k :| 0 <= k < |full| && full[k] == e;
      assert k == 0 || EntryAtMost(full[0], full[k]);
    }
  }

  // ----- seeds

  /** 1024 * ((sample_rate + 1023) // 1024) */
  function Length(rate: int): int {
    1024 * ((rate + 1023) / 1024)
  }

  /** The rates that are accepted give lengths inside the correlation profile. */
  lemma LengthProfile(rate: int)
    requires 8000 <= rate <= 48000
    ensures 8192 <= Length(rate) <= 48128
    ensures rate <= Length(rate) < rate + 1024 && Length(rate) % 1024 == 0
  {
  }

  /** How many values range(0, stop, 4096) has. */
  function Steps(stop: int): nat {
    if stop <= 0 then 0 else (stop - 1) / SEED_STEP + 1
  }

  function WindowSeeds(index: nat, window: Window, length: int): (r: seq<Seed>) {
    var n := Steps(window.count - 2 * length + 1);
    seq(n, k requires 0 <= k < n => Seed(index, SEED_STEP * k, window.start + SEED_STEP * k))
  }

  function AllSeeds(windows: seq<Window>, length: int): seq<Seed> {
    if windows == [] then []
    else
      var k := |windows| - 1;
      AllSeeds(windows[..k], length) + WindowSeeds(k, windows[k], length)
  }

  /** A seed sits on the grid of its window, with room for two lengths behind it. */
  ghost predicate SeedFits(windows: seq<Window>, length: int, s: Seed) {
    && s.window < |windows|
    && 0 <= s.local <= windows[s.window].count - 2 * length && s.local % 4096 == 0
    && s.absolute == windows[s.window].start + s.local
  }

  lemma WindowSeedsMembers(index: nat, window: Window, length: int, s: Seed)
    ensures s in WindowSeeds(index, window, length) <==>
              && s.window == index && 0 <= s.local <= window.count - 2 * length && s.local % SEED_STEP == 0
              && s.absolute == window.start + s.local
  {
    var seeds := WindowSeeds(index, window, length);
    if s.window == index && 0 <= s.local <= window.count - 2 * length && s.local % SEED_STEP == 0
       && s.absolute == window.start + s.local {
      assert seeds[s.local / SEED_STEP] == s;
    }
  }

  lemma {:induction false} SeedsAreExactlyTheGrid(windows: seq<Window>, length: int, s: Seed)
    ensures s in AllSeeds(windows, length) <==> SeedFits(windows, length, s)
  {
    if windows == [] {
    } else {
      var k := |windows| - 1;
      SeedsAreExactlyTheGrid(windows[..k], length, s);
      WindowSeedsMembers(k, windows[k], length, s);
      var rest, here := AllSeeds(windows[..k], length), WindowSeeds(k, windows[k], length);
      assert s in rest + here <==> s in rest || s in here;
    }
  }

  /** i * (len - 1) // 255 */
  function CapIndex(i: nat, size: nat): int {
    i * (size - 1) / 255
  }

  /** Thinned to 256 seeds, evenly spread over the list. */
  function Capped(seeds: seq<Seed>): seq<Seed> {
    if |seeds| <= SEED_CAP then seeds
    else
      CapIndicesSpread(|seeds|);
      seq(SEED_CAP, i requires 0 <= i < SEED_CAP => seeds[CapIndex(i, |seeds|)])
  }

  lemma CapIndexStep(i: nat, j: nat, m: int)
    requires i < j && m > 255
    ensures i * m / 255 < j * m / 255
  {
    assert j * m == i * m + (j - i) * m;
    assert (j - i) * m >= m by {
      assert (j - i - 1) * m >= 0;
    }
  }

  /** The cap keeps both ends of the list and 256 different positions, in order, each within one of
      its place on an even spread. */
  lemma CapIndicesSpread(size: nat)
    requires size > 256
    ensures CapIndex(0, size) == 0 && CapIndex(255, size) == size - 1
    ensures forall i :: 0 <= i < 256 ==> 255 * CapIndex(i, size) <= i * (size - 1) < 255 * CapIndex(i, size) + 255
    ensures forall i, j :: 0 <= i < j < SEED_CAP ==> CapIndex(i, size) < CapIndex(j, size)
    ensures forall i :: 0 <= i < SEED_CAP ==> 0 <= CapIndex(i, size) < size
  {
    forall i, j | 0 <= i < j < SEED_CAP
      ensures CapIndex(i, size) < CapIndex(j, size)
    {
      CapIndexStep(i, j, size - 1);
    }
    forall i | 0 <= i < SEED_CAP
      ensures 0 <= CapIndex(i, size) < size
    {
      if 0 < i {
        assert CapIndex(0, size) < CapIndex(i, size);
      }
      if i < SEED_CAP - 1 {
        assert CapIndex(i, size) < CapIndex(SEED_CAP - 1, size);
      }
    }
  }

  /** Up to 256 seeds are all kept; of more, the 256 at the spread positions. */
  lemma CappedKeeps(seeds: seq<Seed>)
    ensures |seeds| <= 256 ==> Capped(seeds) == seeds
    ensures |seeds| > 256 ==> |Capped(seeds)| == 256
    ensures |seeds| > 256 ==> forall i :: 0 <= i < 256 ==> 0 <= CapIndex(i, |seeds|) < |seeds| && Capped(seeds)[i] == seeds[CapIndex(i, |seeds|)]
  {
    if |seeds| > 256 {
      CapIndicesSpread(|seeds|);
    }
  }

  /** Seeds are listed by window, and inside a window by position. */
  ghost predicate Before(s: Seed, u: Seed) {
    s.window < u.window || (s.window == u.window && s.local < u.local)
  }

  lemma {:induction false} SeedsInOrder(windows: seq<Window>, length: int)
    ensures forall i, j :: 0 <= i < j < |AllSeeds(windows, length)| ==>
              Before(AllSeeds(windows, length)[i], AllSeeds(windows, length)[j])
  {
    if windows == [] {
    } else {
      var k := |windows| - 1;
      var rest, here := AllSeeds(windows[..k], length), WindowSeeds(k, windows[k], length);
      SeedsInOrder(windows[..k], length);
      forall i | 0 <= i < |rest|
        ensures rest[i].window < k
      {
        SeedsAreExactlyTheGrid(windows[..k], length, rest[i]);
        assert rest[i] in rest;
      }
    }
  }

  lemma CappedFit(windows: seq<Window>, length: int, i: nat)
    requires i < |Capped(AllSeeds(windows, length))|
    ensures SeedFits(windows, length, Capped(AllSeeds(windows, length))[i])
  {
    var all := AllSeeds(windows, length);
    if |all| > SEED_CAP {
      CapIndicesSpread(|all|);
    }
    SeedsAreExactlyTheGrid(windows, length, Capped(all)[i]);
  }

  // ----- the lags of one pair

  function Low(a: Seed, b: Seed, length: int): int {
    Max(Max(-LAG, -b.local), a.absolute + 2 * length - b.absolute)
  }

  function High(b: Seed, count: int, length: int): int {
    Min(LAG, count - b.local - 2 * length)
  }

  /** Moved by the lag, the second interval stays in its window and behind the first. */
  predicate LagFits(a: Seed, b: Seed, count: int, length: int, delta: int) {
    && -4096 <= delta <= 4096
    && 0 <= b.local + delta && b.local + delta + 2 * length <= count
    && a.absolute + 2 * length <= b.absolute + delta
  }

  /** Lag 0 is always in range, and the range holds exactly the lags that fit. */
  lemma LagRange(windows: seq<Window>, length: int, a: Seed, b: Seed)
    requires length > 0 && SeedFits(windows, length, a) && SeedFits(windows, length, b)
    requires b.absolute - a.absolute >= 2 * length
    ensures var low, high := Low(a, b, length), High(b, windows[b.window].count, length);
            && low <= 0 <= high
            && forall delta :: LagFits(a, b, windows[b.window].count, length, delta) <==> low <= delta <= high
  {
  }

  /** Both slices lie in their windows, and the search range fits the correlation profile. */
  lemma SlicesFit(windows: seq<Window>, length: int, a: Seed, b: Seed)
    requires length > 0 && SeedFits(windows, length, a) && SeedFits(windows, length, b)
    requires b.absolute - a.absolute >= 2 * length
    ensures var low, high := Low(a, b, length), High(b, windows[b.window].count, length);
            && 0 <= a.local && a.local + 2 * length <= windows[a.window].count
            && 0 <= b.local + low && b.local + high + 2 * length <= windows[b.window].count
            && length <= (b.local + high + length) - (b.local + low) <= length + 8192
  {
    LagRange(windows, length, a, b);
  }

  /** One channel of one pair: a window of the first seed against the range of the second. The
      profile error cannot be raised, and entry k is the correlation at lag low + k. */
  method PairLags(x: seq<real>, y: seq<real>, windows: seq<Window>, a: Seed, b: Seed, length: int)
    returns (rhos: Result<seq<Option<Correlation.Ratio>>>)
    requires 8192 <= length <= 48128
    requires SeedFits(windows, length, a) && SeedFits(windows, length, b) && b.absolute - a.absolute >= 2 * length
    requires |x| == windows[a.window].count && |y| == windows[b.window].count
    ensures rhos.Success?
    ensures var low, high := Low(a, b, length), High(b, |y|, length);
            && |rhos.value| == high - low + 1
            && 0 <= b.local + low && b.local + high + length <= |y| && 0 <= a.local && a.local + length <= |x|
            && forall k :: 0 <= k < |rhos.value| ==>
                 rhos.value[k] == AudioNcc.LagValue(x[a.local..a.local + length], y[b.local + low..b.local + high + length], k)
  {
    SlicesFit(windows, length, a, b);
    var low, high := Low(a, b, length), High(b, |y|, length);
    rhos := AudioNcc.LagNcc(x[a.local..a.local + length], y[b.local + low..b.local + high + length]);
  }

  /** Where half h of the second length begins; half 2 is the end. */
  function HalfStart(local: int, length: int, h: nat): int {
    local + length + h * length / 2
  }

  /** The halves split the second length in the middle, one sample apart at most. */
  lemma HalvesAreEven(local: int, length: int)
    requires length >= 2
    ensures HalfStart(local, length, 0) == local + length && HalfStart(local, length, 2) == local + 2 * length
    ensures var first, second := HalfStart(local, length, 1) - HalfStart(local, length, 0), HalfStart(local, length, 2) - HalfStart(local, length, 1);
            0 < first <= second <= first + 1
  {
  }

  /** At every lag in range both halves of the second length lie in their windows, follow each
      other without a gap, and have a direct coefficient or none, but never an error. */
  lemma SupportsFit(x: seq<real>, y: seq<real>, windows: seq<Window>, a: Seed, b: Seed, length: int, delta: int, h: nat)
    requires 8192 <= length && h < 2
    requires SeedFits(windows, length, a) && SeedFits(windows, length, b)
    requires |x| == windows[a.window].count && |y| == windows[b.window].count
    requires LagFits(a, b, |y|, length, delta)
    ensures HalfStart(a.local, length, 0) == a.local + length && HalfStart(a.local, length, 2) == a.local + 2 * length
    ensures var p, q := HalfStart(a.local, length, h), HalfStart(a.local, length, h + 1);
            var r, s := HalfStart(b.local + delta, length, h), HalfStart(b.local + delta, length, h + 1);
            && 0 <= p < q <= |x| && 0 <= r < s <= |y| && q - p == s - r
            && AudioNcc.Support(x[p..q], y[r..s]).Success?
  {
    var p, q := HalfStart(a.local, length, h), HalfStart(a.local, length, h + 1);
    var r, s := HalfStart(b.local + delta, length, h), HalfStart(b.local + delta, length, h + 1);
    HalvesAreEven(a.local, length);
    HalvesAreEven(b.local + delta, length);
    assert h == 0 || h == 1;
    AudioNcc.SupportDefined(x[p..q], y[r..s]);
  }

  /** Every returned pair of the seeds of any windows meets the demands of the measurement: it is
      never short of support. */
  lemma RankedPairsMeasurable(t: Table, windows: seq<Window>, rate: int, full: seq<Entry>, e: Entry)
    requires 8000 <= rate <= 48000 && t.length == Length(rate) && t.seeds == Capped(AllSeeds(windows, t.length))
    requires Ranking(t, full) && e in full
    ensures 0 <= e.first < e.second < |t.seeds|
    ensures var a, b := t.seeds[e.first], t.seeds[e.second];
            && SeedFits(windows, t.length, a) && SeedFits(windows, t.length, b) && b.absolute - a.absolute >= 2 * t.length
            && 8192 <= t.length <= 48128
            && Low(a, b, t.length) <= 0 <= High(b, windows[b.window].count, t.length)
  {
    RankedMember(t, full, e);
    var c := RankedIsLeast(t, e);
    LengthProfile(rate);
    CappedFit(windows, t.length, e.first);
    CappedFit(windows, t.length, e.second);
    LagRange(windows, t.length, t.seeds[e.first], t.seeds[e.second]);
  }
}
