/** Lists that a loop builds by appending: what is there, and everything joined. */
module Lists {
  import opened Wrappers

  ghost predicate NoDuplicates<T>(s: seq<T>) {
    forall i, j :: 0 <= i < j < |s| ==> s[i] != s[j]
  }

  lemma ConcatNoDuplicates<T>(a: seq<T>, b: seq<T>)
    requires NoDuplicates(a) && NoDuplicates(b)
    requires forall x :: x in a ==> x !in b
    ensures NoDuplicates(a + b)
  {
    forall i, j | 0 <= i < j < |a + b|
      ensures (a + b)[i] != (a + b)[j]
    {
      if i < |a| <= j {
        assert a[i] in a && b[j - |a|] in b;
      }
    }
  }

  /** The values that are there, in their order. */
  function Somes<T>(s: seq<Option<T>>): seq<T> {
    if s == [] then []
    else
      var k := |s| - 1;
      Somes(s[..k]) + if s[k].None? then [] else [s[k].value]
  }

  lemma {:induction false} SomesMembers<T>(s: seq<Option<T>>, x: T)
    ensures x in Somes(s) <==> exists i :: 0 <= i < |s| && s[i] == Some(x)
  {
    if s == [] {
    } else {
      var k := |s| - 1;
      var before := s[..k];
      SomesMembers(before, x);
      var here := if s[k].None? then [] else [s[k].value];
      assert x in Somes(s) <==> x in Somes(before) || x in here;
      assert forall i :: 0 <= i < k ==> before[i] == s[i];
    }
  }

  /** The positions at which nothing is there. */
  function Missing<T>(s: seq<Option<T>>): seq<nat> {
    if s == [] then []
    else
      var k := |s| - 1;
      Missing(s[..k]) + if s[k].None? then [k] else []
  }

  lemma OneMore<T>(s: seq<Option<T>>, i: nat)
    requires i < |s|
    ensures Somes(s[..i + 1]) == if s[i].None? then Somes(s[..i]) else Somes(s[..i]) + [s[i].value]
    ensures Missing(s[..i + 1]) == if s[i].None? then Missing(s[..i]) + [i] else Missing(s[..i])
  {
    assert s[..i + 1][..i] == s[..i];
  }

  lemma {:induction false} MissingMembers<T>(s: seq<Option<T>>, i: nat)
    ensures i in Missing(s) <==> i < |s| && s[i].None?
  {
    if s == [] {
    } else {
      var k := |s| - 1;
      MissingMembers(s[..k], i);
      var before, here := Missing(s[..k]), if s[k].None? then [k] else [];
      assert i in before + here <==> i in before || i in here;
    }
  }

  lemma {:induction false} SomesNoDuplicates<T>(s: seq<Option<T>>)
    requires forall i, j :: 0 <= i < j < |s| && s[i].Some? ==> s[i] != s[j]
    ensures NoDuplicates(Somes(s))
  {
    if s == [] {
    } else {
      var k := |s| - 1;
      SomesNoDuplicates(s[..k]);
      if s[k].Some? {
        SomesMembers(s[..k], s[k].value);
        ConcatNoDuplicates(Somes(s[..k]), [s[k].value]);
      }
    }
  }

  function Flatten<T>(s: seq<seq<T>>): seq<T> {
    if s == [] then [] else Flatten(s[..|s| - 1]) + s[|s| - 1]
  }

  lemma FlattenStep<T>(s: seq<seq<T>>, i: nat)
    requires i < |s|
    ensures Flatten(s[..i + 1]) == Flatten(s[..i]) + s[i]
  {
    assert s[..i + 1][..i] == s[..i];
  }

  lemma {:induction false} FlattenMembers<T>(s: seq<seq<T>>, x: T)
    ensures x in Flatten(s) <==> exists i :: 0 <= i < |s| && x in s[i]
  {
    if s == [] {
    } else {
      var k := |s| - 1;
      var before := s[..k];
      FlattenMembers(before, x);
      assert x in Flatten(s) <==> x in Flatten(before) || x in s[k];
      assert forall i :: 0 <= i < k ==> before[i] == s[i];
    }
  }
}
