/** Day 1: two location lists read side by side, their total distance
    after sorting, and their similarity score. */
module Day01 {
  import opened Common
  import Decimal
  import Sorting
  import Text

  /** `i32_from_bytes`: place-value parsing with a six-entry power table,
      so a longer field would index past the table and panic. */
  function I32FromBytes(bs: seq<char>): (n: int)
    requires |bs| <= 6
    ensures Decimal.IsDecimalText(bs) ==> n == Decimal.Parse(bs) < Decimal.Pow10(6)
  {
    if Decimal.IsDecimalText(bs) then Decimal.PlaceValueWithin(bs, 6); Decimal.PlaceValue(bs)
    else Decimal.PlaceValue(bs)
  }

  /** One line: its first space-separated field and its fourth, the one
      after three spaces; `None` where `unwrap` or the power table panics. */
  function ParseLine(line: seq<char>): (r: Option<(int, int)>)
    ensures r.Some? <==>
      var f := Text.Split(line, ' ');
      |f| >= 4 && |f[0]| <= 6 && |f[3]| <= 6
  {
    var f := Text.Split(line, ' ');
    if |f| >= 4 && |f[0]| <= 6 && |f[3]| <= 6 then Some((I32FromBytes(f[0]), I32FromBytes(f[3])))
    else None
  }

  /** The text of a line `a   b` reads back as the pair (a, b). */
  lemma ParseLineRoundTrip(a: nat, b: nat)
    requires a < Decimal.Pow10(6) && b < Decimal.Pow10(6)
    ensures ParseLine(Decimal.DecimalString(a) + "   " + Decimal.DecimalString(b)) == Some((a, b))
  {
    var da, db := Decimal.DecimalString(a), Decimal.DecimalString(b);
    SplitFields(da, db);
    Decimal.DigitsWithin(a, 6);
    Decimal.DigitsWithin(b, 6);
    Decimal.ParseDecimalString(a);
    Decimal.ParseDecimalString(b);
    assert I32FromBytes(da) == a;
    assert I32FromBytes(db) == b;
  }

  lemma SplitFields(da: seq<char>, db: seq<char>)
    requires Decimal.IsDecimalText(da) && Decimal.IsDecimalText(db)
    ensures Text.Split(da + "   " + db, ' ') == [da, [], [], db]
  {
    var pieces := [da, [], [], db];
    assert Text.Join(pieces, ' ') == da + "   " + db by {
      assert pieces[..3] == [da, [], []];
      assert pieces[..3][..2] == [da, []];
      assert pieces[..3][..2][..1] == [da];
      assert Text.Join([da, []], ' ') == da + [' '];
      assert Text.Join([da, [], []], ' ') == da + [' ', ' '];
      assert "   " == [' ', ' ', ' '];
    }
    Text.SplitJoin(pieces, ' ');
  }

  /** Both lists, line by line; `None` if any line panics. */
  function ParseLists(lines: seq<seq<char>>): (r: Option<(seq<int>, seq<int>)>)
    ensures r.Some? ==> |r.value.0| == |r.value.1| == |lines|
  {
    Collect(seq(|lines|, i requires 0 <= i < |lines| => ParseLine(lines[i])))
  }

  /** The pushes of `part1`'s line loop: both fields of every line, in
      order, unless some line panics. */
  function Collect(ps: seq<Option<(int, int)>>): (r: Option<(seq<int>, seq<int>)>)
    ensures r.Some? ==> |r.value.0| == |r.value.1| == |ps|
  {
    if |ps| == 0 then Some(([], []))
    else
      var prev := Collect(ps[..|ps| - 1]);
      var last := ps[|ps| - 1];
      if prev.None? || last.None? then None
      else Some((prev.value.0 + [last.value.0], prev.value.1 + [last.value.1]))
  }

  /** The lists are read exactly when every line is well formed, and then
      hold the lines' fields in order. */
  lemma {:induction false} CollectAll(ps: seq<Option<(int, int)>>)
    ensures Collect(ps).Some? <==> forall i :: 0 <= i < |ps| ==> ps[i].Some?
    ensures Collect(ps).Some? ==> forall i :: 0 <= i < |ps| ==>
      ps[i].value == (Collect(ps).value.0[i], Collect(ps).value.1[i])
    decreases |ps|
  {
    if |ps| > 0 {
      var init := ps[..|ps| - 1];
      CollectAll(init);
      if Collect(init).None? {
        var k :| 0 <= k < |init| && init[k].None?;
        assert ps[k].None?;
      }
    }
  }

  function DistanceSum(a: seq<int>, b: seq<int>): (d: nat)
    requires |a| == |b|
  {
    if |a| == 0 then 0 else DistanceSum(a[..|a| - 1], b[..|b| - 1]) + Abs(a[|a| - 1] - b[|b| - 1])
  }

  /** The loop of `part1` over the sorted lists. */
  function TotalDistance(l1: seq<int>, l2: seq<int>): (d: nat)
    requires |l1| == |l2|
  {
    DistanceSum(Sorting.Sort(l1), Sorting.Sort(l2))
  }

  /** The total distance is a property of the two multisets: reordering
      either list does not change it. */
  lemma TotalDistanceOrderFree(l1: seq<int>, l2: seq<int>, m1: seq<int>, m2: seq<int>)
    requires |l1| == |l2|
    requires multiset(l1) == multiset(m1) && multiset(l2) == multiset(m2)
    ensures |m1| == |m2|
    ensures TotalDistance(l1, l2) == TotalDistance(m1, m2)
  {
    assert |m1| == |multiset(m1)| == |l1|;
    assert |m2| == |multiset(m2)| == |l2|;
    Sorting.SortPermutation(l1, m1);
    Sorting.SortPermutation(l2, m2);
  }

  /** Identical lists are at distance zero, and distance zero means the
      sorted lists coincide. */
  lemma {:induction false} DistanceSumZero(a: seq<int>, b: seq<int>)
    requires |a| == |b|
    ensures DistanceSum(a, b) == 0 <==> a == b
    decreases |a|
  {
    if |a| > 0 {
      DistanceSumZero(a[..|a| - 1], b[..|b| - 1]);
      assert a == a[..|a| - 1] + [a[|a| - 1]];
      assert b == b[..|b| - 1] + [b[|b| - 1]];
    }
  }

  lemma TotalDistanceZero(l1: seq<int>, l2: seq<int>)
    requires |l1| == |l2|
    ensures TotalDistance(l1, l2) == 0 <==> multiset(l1) == multiset(l2)
  {
    DistanceSumZero(Sorting.Sort(l1), Sorting.Sort(l2));
    if multiset(l1) == multiset(l2) {
      Sorting.SortPermutation(l1, l2);
    }
  }

  function Part1(input: seq<char>): (r: Option<nat>)
    ensures r.Some? <==> ParseLists(Text.Lines(input)).Some?
    ensures r.Some? ==> r.value == TotalDistance(ParseLists(Text.Lines(input)).value.0, ParseLists(Text.Lines(input)).value.1)
  {
    match ParseLists(Text.Lines(input))
    case None => None
    case Some((l1, l2)) => Some(TotalDistance(l1, l2))
  }

  /** Similarity score as the puzzle defines it: each left value times
      the number of its occurrences in the right list. */
  function Similarity(a: seq<int>, b: seq<int>): int
  {
    if |a| == 0 then 0 else Similarity(a[..|a| - 1], b) + a[|a| - 1] * Count(b, a[|a| - 1])
  }

  lemma {:induction false} SimilarityRemove(a: seq<int>, b: seq<int>, k: nat)
    requires k < |a|
    ensures Similarity(a, b) == Similarity(a[..k] + a[k + 1..], b) + a[k] * Count(b, a[k])
    decreases |a|
  {
    if k < |a| - 1 {
      var init := a[..|a| - 1];
      SimilarityRemove(init, b, k);
      var shorter := a[..k] + a[k + 1..];
      assert shorter[..|shorter| - 1] == init[..k] + init[k + 1..];
      assert shorter[|shorter| - 1] == a[|a| - 1];
    } else {
      assert a[..k] + a[k + 1..] == a[..|a| - 1];
    }
  }

  /** The similarity score depends only on the multiset of the left list. */
  lemma {:induction false} SimilarityPermutation(a: seq<int>, a': seq<int>, b: seq<int>)
    requires multiset(a) == multiset(a')
    ensures Similarity(a, b) == Similarity(a', b)
    decreases |a|
  {
    assert |a| == |multiset(a)| == |a'|;
    if |a| > 0 {
      var x := a[|a| - 1];
      assert x in multiset(a');
      var k :| 0 <= k < |a'| && a'[k] == x;
      SimilarityRemove(a', b, k);
      var rest := a'[..k] + a'[k + 1..];
      assert a' == a'[..k] + [x] + a'[k + 1..];
      assert a == a[..|a| - 1] + [x];
      assert multiset(rest) == multiset(a') - multiset{x};
      assert multiset(a[..|a| - 1]) == multiset(a) - multiset{x};
      SimilarityPermutation(a[..|a| - 1], rest, b);
    }
  }

  /** `part2` scores the sorted left list against the sorted right list;
      the result is the similarity of the lists as read. */
  function Part2Score(l1: seq<int>, l2: seq<int>): (r: int)
    ensures r == Similarity(l1, l2)
  {
    var s1, s2 := Sorting.Sort(l1), Sorting.Sort(l2);
    SimilarityPermutation(s1, l1, l2);
    SimilarityCountsOnly(s1, l2, s2);
    Similarity(s1, s2)
  }

  lemma {:induction false} SimilarityCountsOnly(a: seq<int>, b: seq<int>, b': seq<int>)
    requires multiset(b) == multiset(b')
    ensures Similarity(a, b) == Similarity(a, b')
    decreases |a|
  {
    if |a| > 0 {
      SimilarityCountsOnly(a[..|a| - 1], b, b');
    }
  }

  function Part2(input: seq<char>): (r: Option<int>)
    ensures r.Some? <==> ParseLists(Text.Lines(input)).Some?
    ensures r.Some? ==> r.value == Similarity(ParseLists(Text.Lines(input)).value.0, ParseLists(Text.Lines(input)).value.1)
  {
    match ParseLists(Text.Lines(input))
    case None => None
    case Some((l1, l2)) => Some(Part2Score(l1, l2))
  }
}
