/**
  Python's stable sort, as insertion sort over an order given by the caller, with what the
  measurements rely on: the result is the one sorted permutation of its input (for an
  antisymmetric order), ties keep their order, and a list may be truncated while it is sorted.
 */
module Sorting {

  ghost predicate TotalPreorder<T(!new)>(le: (T, T) -> bool) {
    && (forall x, y :: le(x, y) || le(y, x))
    && (forall x, y, z :: le(x, y) && le(y, z) ==> le(x, z))
  }

  ghost predicate Antisymmetric<T(!new)>(le: (T, T) -> bool) {
    forall x, y :: le(x, y) && le(y, x) ==> x == y
  }

  ghost predicate Sorted<T>(s: seq<T>, le: (T, T) -> bool) {
    forall i, j :: 0 <= i < j < |s| ==> le(s[i], s[j])
  }

  /** Puts x behind everything that is not above it. */
  function Insert<T>(x: T, s: seq<T>, le: (T, T) -> bool): (r: seq<T>)
    ensures |r| == |s| + 1
  {
    if s == [] || le(s[|s| - 1], x) then s + [x]
    else Insert(x, s[..|s| - 1], le) + [s[|s| - 1]]
  }

  function Sort<T>(s: seq<T>, le: (T, T) -> bool): (r: seq<T>)
    ensures |r| == |s|
  {
    if s == [] then [] else Insert(s[|s| - 1], Sort(s[..|s| - 1], le), le)
  }

  lemma {:induction false} InsertPermutes<T>(x: T, s: seq<T>, le: (T, T) -> bool)
    ensures multiset(Insert(x, s, le)) == multiset(s) + multiset{x}
  {
    if s == [] || le(s[|s| - 1], x) {
    } else {
      InsertPermutes(x, s[..|s| - 1], le);
      assert s == s[..|s| - 1] + [s[|s| - 1]];
    }
  }

  lemma {:induction false} SortPermutes<T>(s: seq<T>, le: (T, T) -> bool)
    ensures multiset(Sort(s, le)) == multiset(s)
    ensures forall x :: x in Sort(s, le) <==> x in s
  {
    if s == [] {
    } else {
      SortPermutes(s[..|s| - 1], le);
      InsertPermutes(s[|s| - 1], Sort(s[..|s| - 1], le), le);
      assert s == s[..|s| - 1] + [s[|s| - 1]];
    }
    SameMembers(Sort(s, le), s);
  }

  lemma SameMembers<T>(a: seq<T>, b: seq<T>)
    requires multiset(a) == multiset(b)
    ensures |a| == |b|
    ensures forall x :: x in a <==> x in b
  {
    assert |multiset(a)| == |a| && |multiset(b)| == |b|;
    forall x
      ensures x in a <==> x in b
    {
      assert x in a <==> x in multiset(a);
      assert x in b <==> x in multiset(b);
    }
  }

  /** Insert passes what is above x and stops. */
  lemma {:induction false} InsertPlace<T>(x: T, s: seq<T>, le: (T, T) -> bool) returns (p: nat)
    ensures p <= |s| && Insert(x, s, le) == s[..p] + [x] + s[p..]
    ensures p > 0 ==> le(s[p - 1], x)
    ensures forall i :: p <= i < |s| ==> !le(s[i], x)
  {
    if s == [] || le(s[|s| - 1], x) {
      p := |s|;
    } else {
      var k := |s| - 1;
      p := InsertPlace(x, s[..k], le);
      assert s[p..] == s[..k][p..] + [s[k]];
      assert s[..p] == s[..k][..p];
    }
  }

  /** Where Insert puts x: everything before is not above x, everything after is. */
  lemma InsertSplits<T(!new)>(x: T, s: seq<T>, le: (T, T) -> bool) returns (p: nat)
    requires TotalPreorder(le) && Sorted(s, le)
    ensures p <= |s| && Insert(x, s, le) == s[..p] + [x] + s[p..]
    ensures forall i :: 0 <= i < p ==> le(s[i], x)
    ensures forall i :: p <= i < |s| ==> !le(s[i], x)
  {
    p := InsertPlace(x, s, le);
  }

  lemma InsertSorted<T(!new)>(x: T, s: seq<T>, le: (T, T) -> bool)
    requires TotalPreorder(le) && Sorted(s, le)
    ensures Sorted(Insert(x, s, le), le)
  {
    var p := InsertSplits(x, s, le);
  }

  lemma {:induction false} SortSorted<T(!new)>(s: seq<T>, le: (T, T) -> bool)
    requires TotalPreorder(le)
    ensures Sorted(Sort(s, le), le)
  {
    if s == [] {
    } else {
      SortSorted(s[..|s| - 1], le);
      InsertSorted(s[|s| - 1], Sort(s[..|s| - 1], le), le);
    }
  }

  /** Ties keep their order: whatever ties with an entry and came before it in s still does. */
  lemma {:induction false} TiesInOrder<T>(s: seq<T>, le: (T, T) -> bool, i: nat) returns (p: nat)
    requires i < |s|
    ensures p < |s| && s[p] == Sort(s, le)[i]
    ensures TiesAhead(s, le, p, Sort(s, le)[..i])
  {
    var k := |s| - 1;
    var before, r := s[..k], Sort(s[..k], le);
    SortPermutes(before, le);
    var q := InsertPlace(s[k], r, le);
    if i == q {
      p := k;
      TieBehind(before, r, s[k], q, Sort(s, le), le);
    } else {
      var at := if i < q then i else i - 1;
      p := TiesInOrder(before, le, at);
      KeptInOrder(r, s[k], q, i, at);
    }
    assert forall j :: 0 <= j < k ==> before[j] == s[j];
  }

  /** Everything before p that ties with s[p] is among the given. */
  ghost predicate TiesAhead<T>(s: seq<T>, le: (T, T) -> bool, p: nat, ahead: seq<T>)
    requires p < |s|
  {
    forall j :: 0 <= j < p && le(s[j], s[p]) && le(s[p], s[j]) ==> s[j] in ahead
  }

  lemma TieBehind<T>(before: seq<T>, r: seq<T>, x: T, q: nat, sorted: seq<T>, le: (T, T) -> bool)
    requires q <= |r| && sorted == r[..q] + [x] + r[q..] && (forall y :: y in before ==> y in r)
    requires forall m :: q <= m < |r| ==> !le(r[m], x)
    ensures forall j :: 0 <= j < |before| && le(before[j], x) ==> before[j] in sorted[..q]
  {
    forall j | 0 <= j < |before| && le(before[j], x)
      ensures before[j] in sorted[..q]
    {
      assert before[j] in r;
      var m :| 0 <= m < |r| && r[m] == before[j];
      assert sorted[..q][m] == r[m];
    }
  }

  lemma KeptInOrder<T>(r: seq<T>, x: T, q: nat, i: nat, at: nat)
    requires q <= |r| && i <= |r| && i != q && at == if i < q then i else i - 1
    ensures (r[..q] + [x] + r[q..])[i] == r[at]
    ensures forall y :: y in r[..at] ==> y in (r[..q] + [x] + r[q..])[..i]
  {
    var more := r[..q] + [x] + r[q..];
    forall y | y in r[..at]
      ensures y in more[..i]
    {
      var m :| 0 <= m < at && r[m] == y;
      var n := if m < q then m else m + 1;
      assert more[..i][n] == y;
    }
  }

  /** A sorted list is left alone: ties keep their order. */
  lemma {:induction false} SortOfSorted<T>(s: seq<T>, le: (T, T) -> bool)
    requires Sorted(s, le)
    ensures Sort(s, le) == s
  {
    if s == [] {
    } else {
      var k := |s| - 1;
      SortOfSorted(s[..k], le);
      assert s[..k] == [] || s[..k][k - 1] == s[k - 1];
      assert s == s[..k] + [s[k]];
    }
  }

  lemma LastIsGreatest<T(!new)>(s: seq<T>, x: T, le: (T, T) -> bool)
    requires TotalPreorder(le) && Sorted(s, le) && x in s
    ensures le(x, s[|s| - 1])
  {
    var i :| 0 <= i < |s| && s[i] == x;
    assert le(x, x);
  }

  /** Only one sorted list has given elements. */
  lemma {:induction false} SortedUnique<T(!new)>(a: seq<T>, b: seq<T>, le: (T, T) -> bool)
    requires TotalPreorder(le) && Antisymmetric(le)
    requires Sorted(a, le) && Sorted(b, le) && multiset(a) == multiset(b)
    ensures a == b
  {
    SameMembers(a, b);
    if a == [] {
    } else {
      var k := |a| - 1;
      LastIsGreatest(b, a[k], le);
      LastIsGreatest(a, b[k], le);
      DropLast(a);
      DropLast(b);
      SortedUnique(a[..k], b[..k], le);
    }
  }

  lemma DropLast<T>(s: seq<T>)
    requires s != []
    ensures s == s[..|s| - 1] + [s[|s| - 1]]
    ensures multiset(s[..|s| - 1]) == multiset(s) - multiset{s[|s| - 1]}
  {
    assert s == s[..|s| - 1] + [s[|s| - 1]];
  }

  lemma SortInvariant<T(!new)>(a: seq<T>, b: seq<T>, le: (T, T) -> bool)
    requires TotalPreorder(le) && Antisymmetric(le) && multiset(a) == multiset(b)
    ensures Sort(a, le) == Sort(b, le)
  {
    SortSorted(a, le);
    SortSorted(b, le);
    SortPermutes(a, le);
    SortPermutes(b, le);
    SortedUnique(Sort(a, le), Sort(b, le), le);
  }

  function Take<T>(s: seq<T>, n: nat): seq<T> {
    if |s| <= n then s else s[..n]
  }

  lemma InsertIntoTake<T(!new)>(x: T, t: seq<T>, n: nat, le: (T, T) -> bool)
    requires TotalPreorder(le) && Sorted(t, le)
    ensures Take(Insert(x, Take(t, n), le), n) == Take(Insert(x, t, le), n)
  {
    if n < |t| {
      var head := t[..n];
      var p := InsertSplits(x, t, le);
      var q := InsertSplits(x, head, le);
      SplitsAgree(t, n, p, q, x, le);
      if p < n {
        SplicePrefix(t, n, p, x);
      } else {
        assert (t[..p] + [x] + t[p..])[..n] == head;
        assert (head[..n] + [x] + head[n..])[..n] == head;
      }
    }
  }

  lemma SplicePrefix<T>(t: seq<T>, n: nat, p: nat, x: T)
    requires p < n < |t|
    ensures (t[..p] + [x] + t[p..])[..n] == (t[..n][..p] + [x] + t[..n][p..])[..n]
  {
  }

  lemma SplitsAgree<T(!new)>(t: seq<T>, n: nat, p: nat, q: nat, x: T, le: (T, T) -> bool)
    requires n < |t| && p <= |t| && q <= n
    requires forall i :: 0 <= i < p ==> le(t[i], x)
    requires forall i :: p <= i < |t| ==> !le(t[i], x)
    requires forall i :: 0 <= i < q ==> le(t[i], x)
    requires forall i :: q <= i < n ==> !le(t[i], x)
    ensures q == if p < n then p else n
  {
    if p < n {
      assert !le(t[p], x);
    }
    if q < n {
      assert !le(t[q], x);
    }
  }

  /** Appending, sorting and truncating keeps the first n of everything appended so far. */
  lemma TruncatedSort<T(!new)>(s: seq<T>, x: T, n: nat, le: (T, T) -> bool)
    requires TotalPreorder(le)
    ensures Take(Sort(Take(Sort(s, le), n) + [x], le), n) == Take(Sort(s + [x], le), n)
  {
    var t := Sort(s, le);
    SortSorted(s, le);
    var head := Take(t, n);
    assert (s + [x])[..|s|] == s && (head + [x])[..|head|] == head;
    SortOfSorted(head, le);
    InsertIntoTake(x, t, n, le);
  }

  lemma Associate<T>(a: seq<T>, b: seq<T>, c: seq<T>)
    ensures (a + b) + c == a + (b + c)
  {
  }

  function CountIf<T>(s: seq<T>, holds: T -> bool): nat {
    if s == [] then 0 else CountIf(s[..|s| - 1], holds) + if holds(s[|s| - 1]) then 1 else 0
  }

  /** The positions at which it holds: what is counted is their number. */
  ghost function Positions<T>(s: seq<T>, holds: T -> bool): (r: set<int>)
    ensures forall i :: i in r <==> 0 <= i < |s| && holds(s[i])
    ensures |r| == CountIf(s, holds)
  {
    if s == [] then {}
    else
      var k := |s| - 1;
      Positions(s[..k], holds) + if holds(s[k]) then {k} else {}
  }

  lemma {:induction false} CountIfConcat<T>(a: seq<T>, b: seq<T>, holds: T -> bool)
    ensures CountIf(a + b, holds) == CountIf(a, holds) + CountIf(b, holds)
  {
    if b == [] {
      assert a + b == a;
    } else {
      assert (a + b)[..|a + b| - 1] == a + b[..|b| - 1];
      CountIfConcat(a, b[..|b| - 1], holds);
    }
  }

  lemma {:induction false} CountIfUniform<T>(s: seq<T>, holds: T -> bool, all: bool)
    requires forall i :: 0 <= i < |s| ==> holds(s[i]) == all
    ensures CountIf(s, holds) == if all then |s| else 0
  {
    if s == [] {
    } else {
      CountIfUniform(s[..|s| - 1], holds, all);
    }
  }

  // ----- permutations

  /** The list with its k-th entry taken out. */
  function Without<T>(s: seq<T>, k: nat): (r: seq<T>)
    requires k < |s|
    ensures |r| == |s| - 1
  {
    s[..k] + s[k + 1..]
  }

  lemma WithoutTail<T>(s: seq<T>, k: nat)
    requires 0 < k < |s|
    ensures Without(s, k)[0] == s[0] && Without(s, k)[1..] == Without(s[1..], k - 1)
  {
  }

  lemma FindIn<T>(x: T, s: seq<T>) returns (k: nat)
    requires x in s
    ensures k < |s| && s[k] == x && multiset(Without(s, k)) == multiset(s) - multiset{x}
  {
    k :| 0 <= k < |s| && s[k] == x;
    assert s == s[..k] + [x] + s[k + 1..];
  }

  /** Where a permutation has the first entry, and what is left of both without it. */
  lemma HeadInPermutation<T>(a: seq<T>, b: seq<T>) returns (k: nat)
    requires a != [] && multiset(a) == multiset(b)
    ensures k < |b| && b[k] == a[0] && multiset(a[1..]) == multiset(Without(b, k))
  {
    assert a[0] in multiset(b);
    k := FindIn(a[0], b);
    assert a == [a[0]] + a[1..];
  }

  lemma EmptyPermutation<T>(b: seq<T>)
    requires multiset(b) == multiset{}
    ensures b == []
  {
    assert |multiset(b)| == |b|;
  }

  lemma SplitCount<T>(s: seq<T>, k: nat, holds: T -> bool)
    requires k <= |s|
    ensures CountIf(s, holds) == CountIf(s[..k], holds) + CountIf(s[k..], holds)
  {
    assert s == s[..k] + s[k..];
    CountIfConcat(s[..k], s[k..], holds);
  }

  lemma CountIfWithout<T>(s: seq<T>, k: nat, holds: T -> bool)
    requires k < |s|
    ensures CountIf(s, holds) == CountIf(Without(s, k), holds) + if holds(s[k]) then 1 else 0
  {
    var before, after := s[..k], s[k + 1..];
    assert s[..k + 1][..k] == before;
    assert CountIf(s[..k + 1], holds) == CountIf(before, holds) + if holds(s[k]) then 1 else 0;
    CountIfConcat(before, after, holds);
    SplitCount(s, k + 1, holds);
  }

  /** Nothing that can be counted depends on the order. */
  lemma {:induction false} CountIfPermutation<T>(a: seq<T>, b: seq<T>, holds: T -> bool)
    requires multiset(a) == multiset(b)
    ensures CountIf(a, holds) == CountIf(b, holds)
  {
    if a == [] {
      EmptyPermutation(b);
    } else {
      var k := HeadInPermutation(a, b);
      CountIfPermutation(a[1..], Without(b, k), holds);
      CountIfWithout(a, 0, holds);
      assert Without(a, 0) == a[1..];
      CountIfWithout(b, k, holds);
    }
  }

  /** Sorting neither loses nor invents anything that can be counted. */
  lemma CountIfSort<T>(s: seq<T>, le: (T, T) -> bool, holds: T -> bool)
    ensures CountIf(Sort(s, le), holds) == CountIf(s, holds)
  {
    SortPermutes(s, le);
    CountIfPermutation(Sort(s, le), s, holds);
  }
}
