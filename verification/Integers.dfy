/** Integer ranges, sums and counts, and floor division by a positive divisor as Python computes it. */
module Integers {

  /** The integers from start to end - 1. */
  function Range(start: int, end: int): (s: set<int>)
    ensures forall i :: i in s <==> start <= i < end
    ensures |s| == if start <= end then end - start else 0
    decreases end - start
  {
    if start >= end then {} else {start} + Range(start + 1, end)
  }

  lemma {:induction false} SubsetSize<T>(a: set<T>, b: set<T>)
    requires a <= b
    ensures |a| <= |b|
  {
    if a == {} {
    } else {
      var x :| x in a;
      SubsetSize(a - {x}, b - {x});
    }
  }

  function Min(a: int, b: int): (r: int)
    ensures r <= a && r <= b && (r == a || r == b)
  {
    if b < a then b else a
  }

  function Max(a: int, b: int): (r: int)
    ensures a <= r && b <= r && (r == a || r == b)
  {
    if b > a then b else a
  }

  function Abs(v: int): (r: int)
    ensures r >= 0 && (r == v || r == -v)
  {
    if v < 0 then -v else v
  }

  /** i is the floor of a/b exactly when b*i <= a < b*(i+1). */
  lemma FloorUnique(a: int, b: int, i: int)
    requires b > 0
    ensures i == a / b <==> b * i <= a < b * (i + 1)
  {
    var q, r := a / b, a % b;
    assert a == b * q + r && 0 <= r < b;
    if b * i <= a < b * (i + 1) {
      if i < q {
        MulMonotone(b, i + 1, q);
      } else if i > q {
        MulMonotone(b, q + 1, i);
      }
    }
  }

  lemma MulMonotone(b: int, x: int, y: int)
    requires b >= 0 && x <= y
    ensures b * x <= b * y
  {
  }

  lemma MulStrict(b: int, x: int, y: int)
    requires b > 0
    ensures x < y <==> b * x < b * y
  {
  }

  /** Floor division moves by m when the dividend moves by m divisors. */
  lemma FloorShift(a: int, b: int, m: int)
    requires b > 0
    ensures (a + b * m) / b == a / b + m
  {
    FloorUnique(a, b, a / b);
    assert b * (a / b + m) == b * (a / b) + b * m;
    assert b * (a / b + m + 1) == b * (a / b + 1) + b * m;
    FloorUnique(a + b * m, b, a / b + m);
  }

  lemma FloorMonotone(a: int, c: int, b: int)
    requires b > 0 && a <= c
    ensures a / b <= c / b
  {
    if a / b > c / b {
      MulMonotone(b, c / b + 1, a / b);
      FloorUnique(a, b, a / b);
      FloorUnique(c, b, c / b);
    }
  }

  /** Least integer at or above a/b, as -((-a) // b). */
  function Ceil(a: int, b: int): int
    requires b > 0
  {
    -((-a) / b)
  }

  lemma CeilUnique(a: int, b: int, i: int)
    requires b > 0
    ensures Ceil(a, b) <= i <==> a <= b * i
  {
    var c := (-a) / b;
    FloorUnique(-a, b, c);
    if -c <= i {
      MulMonotone(b, -c, i);
      assert b * -c == -(b * c);
    } else {
      MulMonotone(b, i, -c - 1);
      assert b * (-c - 1) == -(b * (c + 1));
    }
  }

  function SumInts(s: seq<int>): int {
    if s == [] then 0 else s[0] + SumInts(s[1..])
  }

  lemma {:induction false} SumOfUpdated(s: seq<int>, i: nat, v: int)
    requires i < |s|
    ensures SumInts(s[i := v]) == SumInts(s) - s[i] + v
  {
    if i == 0 {
      assert s[i := v][1..] == s[1..];
    } else {
      assert s[i := v][1..] == s[1..][i - 1 := v];
      SumOfUpdated(s[1..], i - 1, v);
    }
  }

  lemma {:induction false} SumOfZeros(s: seq<int>)
    requires forall i :: 0 <= i < |s| ==> s[i] == 0
    ensures SumInts(s) == 0
  {
    if s == [] {
    } else {
      SumOfZeros(s[1..]);
    }
  }

  lemma {:induction false} DistinctAreFew<T>(s: seq<T>, within: set<T>)
    requires forall i, j :: 0 <= i < j < |s| ==> s[i] != s[j]
    requires forall i :: 0 <= i < |s| ==> s[i] in within
    ensures |s| <= |within|
  {
    if s == [] {
    } else {
      var k := |s| - 1;
      forall i | 0 <= i < k
        ensures s[..k][i] in within - {s[k]}
      {
        assert s[i] != s[k];
      }
      DistinctAreFew(s[..k], within - {s[k]});
    }
  }

  lemma {:induction false} MembersAreFew<T>(s: seq<T>)
    ensures |set x | x in s| <= |s|
  {
    if s == [] {
    } else {
      var k := |s| - 1;
      MembersAreFew(s[..k]);
      assert (set x | x in s) == (set x | x in s[..k]) + {s[k]};
    }
  }

  /** Distinct members of a list are no more than the list is long. */
  lemma DistinctFit<T>(s: seq<T>, within: seq<T>)
    requires forall i, j :: 0 <= i < j < |s| ==> s[i] != s[j]
    requires forall i :: 0 <= i < |s| ==> s[i] in within
    ensures |s| <= |within|
  {
    DistinctAreFew(s, set x | x in within);
    MembersAreFew(within);
  }
}
