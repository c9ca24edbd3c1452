/** Sorting of integers, standing for the library's sort.Ints and sort.Sort. */
module Sorting {

  ghost predicate IsSorted(s: seq<int>) {
    forall i, j :: 0 <= i < j < |s| ==> s[i] <= s[j]
  }

  ghost predicate IsAscending(s: seq<int>) {
    forall i, j :: 0 <= i < j < |s| ==> s[i] < s[j]
  }

  function Insert(s: seq<int>, x: int): (r: seq<int>)
    ensures |r| == |s| + 1
  {
    if s == [] then [x]
    else if s[|s| - 1] <= x then s + [x]
    else Insert(s[..|s| - 1], x) + [s[|s| - 1]]
  }

  /** The elements of `s` in non-decreasing order. */
  function Sort(s: seq<int>): (r: seq<int>)
    ensures |r| == |s|
  {
    if s == [] then [] else Insert(Sort(s[..|s| - 1]), s[|s| - 1])
  }

  lemma {:induction false} InsertIsPermutation(s: seq<int>, x: int)
    ensures multiset(Insert(s, x)) == multiset(s) + multiset{x}
  {
    if s != [] {
      assert s == s[..|s| - 1] + [s[|s| - 1]];
      InsertIsPermutation(s[..|s| - 1], x);
    }
  }

  lemma {:induction false} SortIsPermutation(s: seq<int>)
    ensures multiset(Sort(s)) == multiset(s)
  {
    if s != [] {
      assert s == s[..|s| - 1] + [s[|s| - 1]];
      SortIsPermutation(s[..|s| - 1]);
      InsertIsPermutation(Sort(s[..|s| - 1]), s[|s| - 1]);
    }
  }

  lemma {:induction false} InsertIsSorted(s: seq<int>, x: int)
    requires IsSorted(s)
    ensures IsSorted(Insert(s, x))
  {
    if s != [] && s[|s| - 1] > x {
      var init, last := s[..|s| - 1], s[|s| - 1];
      InsertIsSorted(init, x);
      InsertMembers(init, x);
      var r := Insert(init, x);
      forall i | 0 <= i < |r| ensures r[i] <= last {
        assert r[i] in r;
        assert r[i] in init || r[i] == x;
      }
    }
  }

  lemma InsertMembers(s: seq<int>, x: int)
    ensures forall y :: y in Insert(s, x) <==> y in s || y == x
  {
    InsertIsPermutation(s, x);
    forall y
      ensures y in Insert(s, x) <==> y in s || y == x
    {
      assert y in multiset(Insert(s, x)) <==> y in multiset(s) + multiset{x};
    }
  }

  lemma {:induction false} SortIsSorted(s: seq<int>)
    ensures IsSorted(Sort(s))
  {
    if s != [] {
      SortIsSorted(s[..|s| - 1]);
      InsertIsSorted(Sort(s[..|s| - 1]), s[|s| - 1]);
    }
  }

  /** Two ascending sequences with the same elements are equal. */
  lemma {:induction false} AscendingIsUnique(a: seq<int>, b: seq<int>)
    requires IsAscending(a) && IsAscending(b)
    requires forall x :: x in a <==> x in b
    ensures a == b
  {
    assert (a != [] ==> a[0] in a) && (b != [] ==> b[0] in b);
    if a != [] {
      var m, n := |a| - 1, |b| - 1;
      assert a[m] in a && b != [];
      assert a[m] in b;
      assert b[n] in b;
      assert b[n] in a;
      assert a[m] == b[n];
      InitMembers(a);
      InitMembers(b);
      forall x ensures x in a[..m] <==> x in b[..n] {
        assert x in a <==> x in b;
        assert x in a[..m] <==> x in a && x != a[m];
        assert x in b[..n] <==> x in b && x != b[n];
      }
      AscendingIsUnique(a[..m], b[..n]);
    }
  }

  lemma InitMembers(a: seq<int>)
    requires IsAscending(a) && a != []
    ensures forall x :: x in a[..|a| - 1] <==> x in a && x != a[|a| - 1]
  {
    var m := |a| - 1;
    forall x
      ensures x in a[..m] <==> x in a && x != a[m]
    {
      if x in a[..m] {
        var i :| 0 <= i < m && a[..m][i] == x;
        assert a[i] == x;
      }
      if x in a && x != a[m] {
        var i :| 0 <= i < |a| && a[i] == x;
        assert a[..m][i] == x;
      }
    }
  }
}
