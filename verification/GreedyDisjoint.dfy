/**
  scripts/diploma_vrc_targeted_research.py, greedy_disjoint: up to three pairs in order of
  distance that reuse no group. Groups are identified by their key.
 */
module GreedyDisjoint {
  import opened VideoCorrespondence
  import opened Sorting
  import opened Integers

  type Key = (int, int, int)

  predicate Nearer(p: Pair, q: Pair) {
    Distance(p) <= Distance(q)
  }

  predicate Holds(p: Pair, k: Key) {
    k == p.a.Key() || k == p.b.Key()
  }

  predicate Shares(p: Pair, q: Pair) {
    Holds(q, p.a.Key()) || Holds(q, p.b.Key())
  }

  predicate Blocked(p: Pair, used: set<Key>) {
    p.a.Key() in used || p.b.Key() in used
  }

  /** No group occurs in two of the pairs. */
  ghost predicate GroupDisjoint(pairs: seq<Pair>) {
    forall i, j :: 0 <= i < j < |pairs| ==> !Shares(pairs[i], pairs[j])
  }

  ghost predicate SharesWithOne(p: Pair, selected: seq<Pair>) {
    exists i :: 0 <= i < |selected| && Shares(p, selected[i])
  }

  function UsedKeys(pairs: seq<Pair>): set<Key> {
    if pairs == [] then {} else UsedKeys(pairs[..|pairs| - 1]) + {pairs[|pairs| - 1].a.Key(), pairs[|pairs| - 1].b.Key()}
  }

  lemma {:induction false} UsedKeysHeld(pairs: seq<Pair>, k: Key)
    ensures k in UsedKeys(pairs) <==> exists i :: 0 <= i < |pairs| && Holds(pairs[i], k)
  {
    if pairs == [] {
    } else {
      var n := |pairs| - 1;
      var rest := pairs[..n];
      UsedKeysHeld(rest, k);
      if k in UsedKeys(rest) {
        var i :| 0 <= i < |rest| && Holds(rest[i], k);
        assert Holds(pairs[i], k);
      } else if k in UsedKeys(pairs) {
        assert Holds(pairs[n], k);
      } else {
        assert forall i :: 0 <= i < n ==> rest[i] == pairs[i];
      }
    }
  }

  lemma {:induction false} UsedKeysFew(pairs: seq<Pair>)
    ensures |UsedKeys(pairs)| <= 2 * |pairs|
  {
    if pairs == [] {
    } else {
      var n := |pairs| - 1;
      UsedKeysFew(pairs[..n]);
    }
  }

  lemma BlockedIsShared(p: Pair, selected: seq<Pair>)
    ensures Blocked(p, UsedKeys(selected)) <==> SharesWithOne(p, selected)
  {
    UsedKeysHeld(selected, p.a.Key());
    UsedKeysHeld(selected, p.b.Key());
  }

  lemma SortedByDistance(pairs: seq<Pair>)
    ensures Sorted(Sort(pairs, Nearer), Nearer)
    ensures forall p :: p in Sort(pairs, Nearer) <==> p in pairs
  {
    SortSorted(pairs, Nearer);
    SortPermutes(pairs, Nearer);
  }

  method Greedy(pairs: seq<Pair>) returns (selected: seq<Pair>)
    ensures |selected| <= 3 && (forall p :: p in selected ==> p in pairs)
    ensures GroupDisjoint(selected)
    ensures forall i, j :: 0 <= i < j < |selected| ==> Distance(selected[i]) <= Distance(selected[j])
    ensures pairs != [] ==> selected != [] && forall p :: p in pairs ==> Distance(selected[0]) <= Distance(p)
    ensures EachNearest(pairs, selected) && FirstOfTies(pairs, selected)
    ensures |selected| < 3 ==> forall p :: p in pairs ==> SharesWithOne(p, selected)
  {
    var ordered := Sort(pairs, Nearer);
    SortedByDistance(pairs);
    var used: set<Key> := {};
    selected := [];
    var walked := 0;
    while walked < |ordered| && |selected| < 3
      invariant walked <= |ordered| && |selected| <= 3
      invariant used == UsedKeys(selected)
      invariant Chosen(ordered, walked, selected) && EachNearest(ordered, selected) && AllTaken(ordered, selected)
    {
      var pair := ordered[walked];
      BlockedIsShared(pair, selected);
      if Blocked(pair, used) {
        SkipPair(ordered, walked, selected);
      } else {
        NextNearest(ordered, walked, selected);
        NextTaken(ordered, walked, selected);
        TakePair(ordered, walked, selected);
        UsedKeysStep(selected, pair);
        selected := selected + [pair];
        used := used + {pair.a.Key(), pair.b.Key()};
      }
      walked := walked + 1;
    }
    TakenAreFirst(pairs, selected);
  }

  /** Every selected pair is the nearest of all that share no group with those before it. */
  ghost predicate EachNearest(pairs: seq<Pair>, selected: seq<Pair>) {
    forall k, p :: 0 <= k < |selected| && p in pairs && !SharesWithOne(p, selected[..k]) ==> Distance(selected[k]) <= Distance(p)
  }

  /** Of pairs at one distance the first in the list is taken: those before it share with one selected
      earlier. */
  ghost predicate FirstOfTies(pairs: seq<Pair>, selected: seq<Pair>) {
    forall k :: 0 <= k < |selected| ==> IsFirst(pairs, selected, k)
  }

  ghost predicate IsFirst(pairs: seq<Pair>, selected: seq<Pair>, k: int)
    requires 0 <= k < |selected|
  {
    exists i :: FirstAt(pairs, selected, k, i)
  }

  ghost predicate FirstAt(pairs: seq<Pair>, selected: seq<Pair>, k: int, i: int)
    requires 0 <= k < |selected|
  {
    && 0 <= i < |pairs| && pairs[i] == selected[k]
    && forall j :: 0 <= j < i && Distance(pairs[j]) == Distance(pairs[i]) ==> SharesWithOne(pairs[j], selected[..k])
  }

  /** The pair is the one at i of the sorted list, and everything before it was taken or shares. */
  ghost predicate TakenAt(ordered: seq<Pair>, selected: seq<Pair>, k: int, i: int)
    requires 0 <= k < |selected|
  {
    && 0 <= i < |ordered| && ordered[i] == selected[k]
    && forall j :: 0 <= j < i ==> SharesWithOne(ordered[j], selected[..k])
  }

  ghost predicate AllTaken(ordered: seq<Pair>, selected: seq<Pair>) {
    forall k :: 0 <= k < |selected| ==> WasTaken(ordered, selected, k)
  }

  ghost predicate WasTaken(ordered: seq<Pair>, selected: seq<Pair>, k: int)
    requires 0 <= k < |selected|
  {
    exists i :: TakenAt(ordered, selected, k, i)
  }

  lemma NextTaken(ordered: seq<Pair>, i: nat, selected: seq<Pair>)
    requires i < |ordered| && Chosen(ordered, i, selected) && AllTaken(ordered, selected)
    ensures AllTaken(ordered, selected + [ordered[i]])
  {
    var more := selected + [ordered[i]];
    forall k | 0 <= k < |more|
      ensures WasTaken(ordered, more, k)
    {
      if k < |selected| {
        assert more[..k] == selected[..k] && WasTaken(ordered, selected, k);
        var at :| TakenAt(ordered, selected, k, at);
        assert TakenAt(ordered, more, k, at);
      } else {
        assert more[..k] == selected;
        assert TakenAt(ordered, more, k, i);
      }
    }
  }

  lemma TakenAreFirst(pairs: seq<Pair>, selected: seq<Pair>)
    requires AllTaken(Sort(pairs, Nearer), selected)
    ensures FirstOfTies(pairs, selected)
  {
    forall k | 0 <= k < |selected|
      ensures IsFirst(pairs, selected, k)
    {
      assert WasTaken(Sort(pairs, Nearer), selected, k);
      var at :| TakenAt(Sort(pairs, Nearer), selected, k, at);
      var p := TiesInOrder(pairs, Nearer, at);
      assert FirstAt(pairs, selected, k, p);
    }
  }

  lemma NextNearest(ordered: seq<Pair>, i: nat, selected: seq<Pair>)
    requires Sorted(ordered, Nearer) && i < |ordered|
    requires Chosen(ordered, i, selected) && EachNearest(ordered, selected)
    ensures EachNearest(ordered, selected + [ordered[i]])
  {
    var more := selected + [ordered[i]];
    forall k, p | 0 <= k < |more| && p in ordered && !SharesWithOne(p, more[..k])
      ensures Nearer(more[k], p)
    {
      if k < |selected| {
        assert more[..k] == selected[..k];
      } else {
        assert more[..k] == selected;
        var j :| 0 <= j < |ordered| && ordered[j] == p;
        assert j >= i;
      }
    }
  }

  lemma UsedKeysStep(selected: seq<Pair>, pair: Pair)
    ensures UsedKeys(selected + [pair]) == UsedKeys(selected) + {pair.a.Key(), pair.b.Key()}
  {
    assert (selected + [pair])[..|selected|] == selected;
  }

  /** The state of the walk after i pairs. */
  ghost predicate Chosen(ordered: seq<Pair>, i: nat, selected: seq<Pair>)
    requires i <= |ordered|
  {
    && GroupDisjoint(selected) && Sorted(selected, Nearer)
    && (forall p :: p in selected ==> p in ordered[..i])
    && (if i == 0 then selected == [] else selected != [] && selected[0] == ordered[0])
    && (forall k :: 0 <= k < i ==> SharesWithOne(ordered[k], selected))
  }

  lemma SkipPair(ordered: seq<Pair>, i: nat, selected: seq<Pair>)
    requires i < |ordered| && Chosen(ordered, i, selected) && SharesWithOne(ordered[i], selected)
    ensures Chosen(ordered, i + 1, selected)
  {
    assert ordered[..i + 1] == ordered[..i] + [ordered[i]];
  }

  lemma TakePair(ordered: seq<Pair>, i: nat, selected: seq<Pair>)
    requires Sorted(ordered, Nearer) && i < |ordered|
    requires Chosen(ordered, i, selected) && !SharesWithOne(ordered[i], selected)
    ensures Chosen(ordered, i + 1, selected + [ordered[i]])
  {
    var more := selected + [ordered[i]];
    assert ordered[..i + 1] == ordered[..i] + [ordered[i]];
    forall k | 0 <= k < |selected|
      ensures Nearer(selected[k], ordered[i]) && !Shares(selected[k], ordered[i])
    {
      assert selected[k] in ordered[..i];
      var j :| 0 <= j < i && ordered[..i][j] == selected[k];
      assert !Shares(ordered[i], selected[k]);
    }
    assert Shares(ordered[i], more[|selected|]);
    forall k | 0 <= k < i
      ensures SharesWithOne(ordered[k], more)
    {
      var s :| 0 <= s < |selected| && Shares(ordered[k], selected[s]);
      assert more[s] == selected[s];
    }
  }

  // ----- how far greedy can be from the largest disjoint family

  function HeldKey(p: Pair, keys: set<Key>): (k: Key)
    requires Blocked(p, keys)
    ensures Holds(p, k) && k in keys
  {
    if p.a.Key() in keys then p.a.Key() else p.b.Key()
  }

  /** For each pair of the family, one key that it holds among the given ones. */
  function Hits(family: seq<Pair>, keys: set<Key>): (hit: seq<Key>)
    requires forall i :: 0 <= i < |family| ==> Blocked(family[i], keys)
    ensures |hit| == |family|
    ensures forall i :: 0 <= i < |family| ==> Holds(family[i], hit[i]) && hit[i] in keys
  {
    seq(|family|, i requires 0 <= i < |family| => HeldKey(family[i], keys))
  }

  /** When nothing more can be added to a selection, no group-disjoint family of the same pairs
      has more than twice as many members; Greedy ends so whenever it returns fewer than three. */
  lemma MaximalWithinFactorTwo(pairs: seq<Pair>, selected: seq<Pair>, family: seq<Pair>)
    requires forall p :: p in pairs ==> SharesWithOne(p, selected)
    requires GroupDisjoint(family) && forall p :: p in family ==> p in pairs
    ensures |family| <= 2 * |selected|
  {
    var keys := UsedKeys(selected);
    forall i | 0 <= i < |family|
      ensures Blocked(family[i], keys)
    {
      assert family[i] in pairs;
      BlockedIsShared(family[i], selected);
    }
    var hit := Hits(family, keys);
    forall i, j | 0 <= i < j < |hit|
      ensures hit[i] != hit[j]
    {
      assert !Shares(family[i], family[j]);
      assert Holds(family[i], hit[i]) && Holds(family[j], hit[j]);
    }
    UsedKeysFew(selected);
    DistinctAreFew(hit, keys);
  }
}
