/** Sorting integer sequences, as `Vec::sort` does, and the fact that the
    sorted form of a list depends only on its multiset of elements. */
module Sorting {

  predicate Sorted(s: seq<int>)
  {
    forall i, j :: 0 <= i < j < |s| ==> s[i] <= s[j]
  }

  function Insert(x: int, s: seq<int>): (r: seq<int>)
    requires Sorted(s)
    ensures Sorted(r)
    ensures multiset(r) == multiset(s) + multiset{x}
    ensures |r| == |s| + 1 && (r[0] == x || (|s| > 0 && r[0] == s[0]))
    decreases |s|
  {
    if |s| == 0 then [x]
    else if x <= s[0] then [x] + s
    else
      var rest := Insert(x, s[1..]);
      assert s == [s[0]] + s[1..];
      SortedCons(s[0], rest);
      [s[0]] + rest
  }

  /** A head no greater than the first of a sorted tail keeps it sorted. */
  lemma SortedCons(a: int, rest: seq<int>)
    requires Sorted(rest) && (|rest| > 0 ==> a <= rest[0])
    ensures Sorted([a] + rest)
  {
    var s := [a] + rest;
    forall i, j | 0 <= i < j < |s|
      ensures s[i] <= s[j]
    {
      assert s[j] == rest[j - 1];
      if i > 0 {
        assert s[i] == rest[i - 1];
      }
    }
  }

  function Sort(s: seq<int>): (r: seq<int>)
    ensures Sorted(r)
    ensures multiset(r) == multiset(s)
    ensures |r| == |s|
    decreases |s|
  {
    if |s| == 0 then []
    else
      assert s == s[..|s| - 1] + [s[|s| - 1]];
      var r := Insert(s[|s| - 1], Sort(s[..|s| - 1]));
      assert |r| == |multiset(r)|;
      r
  }

  /** Two sorted sequences with the same elements are equal. */
  lemma {:induction false} SortedUnique(a: seq<int>, b: seq<int>)
    requires Sorted(a) && Sorted(b)
    requires multiset(a) == multiset(b)
    ensures a == b
    decreases |a|
  {
    assert |a| == |multiset(a)| == |multiset(b)| == |b|;
    if |a| > 0 {
      assert a[0] in multiset(b);
      assert b[0] in multiset(a);
      var i :| 0 <= i < |b| && b[i] == a[0];
      var j :| 0 <= j < |a| && a[j] == b[0];
      assert a[0] == b[0];
      assert a == [a[0]] + a[1..];
      assert b == [b[0]] + b[1..];
      assert multiset(a) == multiset{a[0]} + multiset(a[1..]);
      assert multiset(b) == multiset{b[0]} + multiset(b[1..]);
      assert multiset(a[1..]) == multiset(a) - multiset{a[0]};
      assert multiset(b[1..]) == multiset(b) - multiset{b[0]};
      SortedUnique(a[1..], b[1..]);
    }
  }

  /** Sorting forgets the order of its input. */
  lemma SortPermutation(a: seq<int>, b: seq<int>)
    requires multiset(a) == multiset(b)
    ensures Sort(a) == Sort(b)
  {
    SortedUnique(Sort(a), Sort(b));
  }

  lemma InSort(s: seq<int>)
    ensures forall x :: x in Sort(s) <==> x in s
  {
    assert forall x :: x in Sort(s) <==> x in multiset(Sort(s));
    assert forall x :: x in s <==> x in multiset(s);
  }

  /** The head of a sorted sequence is its least element. */
  lemma SortedHead(s: seq<int>)
    requires Sorted(s) && |s| > 0
    ensures forall x :: x in s ==> s[0] <= x
  {
    forall x | x in s ensures s[0] <= x {
      var k :| 0 <= k < |s| && s[k] == x;
    }
  }

  predicate StrictlySorted(s: seq<int>)
  {
    forall i, j :: 0 <= i < j < |s| ==> s[i] < s[j]
  }

  /** `Vec::dedup` on a sorted sequence: runs of equal elements collapse
      to one. */
  function Dedup(s: seq<int>): (r: seq<int>)
    requires Sorted(s)
    ensures StrictlySorted(r)
    ensures forall x :: x in r <==> x in s
    decreases |s|
  {
    if |s| <= 1 then s
    else
      var rest := Dedup(s[1..]);
      assert forall x :: x in s <==> x == s[0] || x in s[1..];
      if s[0] == s[1] then rest
      else
        LeastHead(s);
        var r := [s[0]] + rest;
        assert forall j :: 0 < j < |r| ==> r[j] in rest;
        r
  }

  /** In a sorted sequence whose first two elements differ, the first is
      below every later element. */
  lemma LeastHead(s: seq<int>)
    requires Sorted(s) && |s| > 1 && s[0] != s[1]
    ensures forall x :: x in s[1..] ==> s[0] < x
  {
    forall x | x in s[1..] ensures s[0] < x {
      var j :| 0 <= j < |s[1..]| && s[1..][j] == x;
      assert s[1] <= s[j + 1];
    }
  }

  /** A strictly sorted sequence is determined by its elements. */
  lemma {:induction false} StrictlySortedUnique(a: seq<int>, b: seq<int>)
    requires StrictlySorted(a) && StrictlySorted(b)
    requires forall x :: x in a <==> x in b
    ensures a == b
    decreases |a|
  {
    if |a| > 0 {
      assert a[0] in a;
    }
    if |b| > 0 {
      assert b[0] in b;
    }
    if |a| > 0 && |b| > 0 {
      assert a[0] == b[0] by {
        var i :| 0 <= i < |b| && b[i] == a[0];
        var j :| 0 <= j < |a| && a[j] == b[0];
      }
      forall x ensures x in a[1..] <==> x in b[1..] {
        if x in a[1..] {
          assert x in b && x != b[0];
        }
        if x in b[1..] {
          assert x in a && x != a[0];
        }
      }
      StrictlySortedUnique(a[1..], b[1..]);
      assert a == [a[0]] + a[1..] && b == [b[0]] + b[1..];
    }
  }

  /** Deduplicating what has no duplicates changes nothing. */
  lemma DedupStrict(s: seq<int>)
    requires StrictlySorted(s)
    ensures Dedup(s) == s
  {
    StrictlySortedUnique(Dedup(s), s);
  }
}
