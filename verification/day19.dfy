/** Day 19: towel patterns and designs. A design can be built when it is
    the concatenation of patterns, each usable any number of times; part
    one counts the designs that can be built, part two the ways to build
    them all. The source's memo tables only cache results, so both
    searches are plain recursion here. A design reached with an empty
    pattern in the list recurses on itself forever; that divergence is
    `None`. */
module Day19 {
  import opened Common
  import Text

  /** `is_subslice(haystack, needle)`: the needle is a prefix of the
      haystack, checked by length and then element by element. */
  function IsSubslice(haystack: seq<char>, needle: seq<char>): (b: bool)
    ensures b <==> |needle| <= |haystack| && haystack[..|needle|] == needle
  {
    |needle| <= |haystack| && AgreeFrom(haystack, needle, 0)
  }

  function AgreeFrom(haystack: seq<char>, needle: seq<char>, i: nat): (b: bool)
    requires |needle| <= |haystack| && i <= |needle|
    ensures b <==> haystack[i..|needle|] == needle[i..]
    decreases |needle| - i
  {
    if i == |needle| then true
    else
      assert haystack[i..|needle|] == [haystack[i]] + haystack[i + 1..|needle|];
      assert needle[i..] == [needle[i]] + needle[i + 1..];
      haystack[i] == needle[i] && AgreeFrom(haystack, needle, i + 1)
  }

  /** The unit tests of `is_subslice`. */
  lemma IsSubsliceExamples()
    ensures IsSubslice("123", "12") && !IsSubslice("213", "12") && !IsSubslice("12", "123")
    ensures IsSubslice("12", "12") && IsSubslice("", "") && IsSubslice("12", "") && !IsSubslice("", "12")
  {
    assert "213"[..2] != "12" by {
      assert "213"[..2][0] == '2';
    }
  }

  // ----- the reference: arrangements -----

  /** The patterns named by `ks`, one after the other. */
  function Flatten(ps: seq<seq<char>>, ks: seq<nat>): seq<char>
    requires forall j :: 0 <= j < |ks| ==> ks[j] < |ps|
  {
    if |ks| == 0 then [] else ps[ks[0]] + Flatten(ps, ks[1..])
  }

  /** `ks` lists pattern numbers whose patterns, in order, spell `t`. */
  predicate IsArrangement(t: seq<char>, ps: seq<seq<char>>, ks: seq<nat>)
  {
    (forall j :: 0 <= j < |ks| ==> ks[j] < |ps|) && Flatten(ps, ks) == t
  }

  /** The design is some concatenation of patterns. */
  ghost predicate Composable(t: seq<char>, ps: seq<seq<char>>)
  {
    exists ks :: IsArrangement(t, ps, ks)
  }

  /** An arrangement starting with pattern `i` is that pattern, a prefix
      of the design, followed by an arrangement of the rest. */
  lemma ArrangementCons(t: seq<char>, ps: seq<seq<char>>, i: nat, ks: seq<nat>)
    requires i < |ps|
    ensures IsArrangement(t, ps, [i] + ks) <==> IsSubslice(t, ps[i]) && IsArrangement(t[|ps[i]|..], ps, ks)
  {
    var ks' := [i] + ks;
    assert ks'[1..] == ks;
    assert (forall j :: 0 <= j < |ks'| ==> ks'[j] < |ps|) <==> (forall j :: 0 <= j < |ks| ==> ks[j] < |ps|) by {
      forall j | 0 <= j < |ks|
        ensures ks'[j + 1] == ks[j]
      {
      }
    }
    if forall j :: 0 <= j < |ks| ==> ks[j] < |ps| {
      var f := Flatten(ps, ks);
      assert Flatten(ps, ks') == ps[i] + f;
      if ps[i] + f == t {
        assert t[..|ps[i]|] == ps[i] && t[|ps[i]|..] == f;
      }
      if IsSubslice(t, ps[i]) && f == t[|ps[i]|..] {
        assert t == t[..|ps[i]|] + t[|ps[i]|..];
      }
    }
  }

  /** Every pattern is non-empty: the inputs on which both searches end. */
  predicate NonEmpty(ps: seq<seq<char>>)
  {
    forall i :: 0 <= i < |ps| ==> |ps[i]| > 0
  }

  // ----- part one -----

  /** `can_build`: an empty design is built; otherwise some pattern that
      is a prefix of it must leave a rest that can be built, the patterns
      tried in order and the first success ending the search. */
  function Build(t: seq<char>, ps: seq<seq<char>>): (r: Option<bool>)
    ensures |t| == 0 ==> r == Some(true)
    ensures NonEmpty(ps) ==> r.Some?
    decreases |t|, |ps| + 1
  {
    if |t| == 0 then Some(true) else AnyFrom(t, ps, 0)
  }

  /** The `any` over the patterns from number `i` on. */
  function AnyFrom(t: seq<char>, ps: seq<seq<char>>, i: nat): (r: Option<bool>)
    requires |t| > 0 && i <= |ps|
    ensures NonEmpty(ps) ==> r.Some?
    decreases |t|, |ps| - i
  {
    if i == |ps| then Some(false)
    else if !IsSubslice(t, ps[i]) then AnyFrom(t, ps, i + 1)
    else if |ps[i]| == 0 then None
    else
      match Build(t[|ps[i]|..], ps)
      case None => None
      case Some(true) => Some(true)
      case Some(false) => AnyFrom(t, ps, i + 1)
  }

  /** Whenever `can_build` answers, it answers whether the design is a
      concatenation of patterns. */
  lemma {:induction false} BuildCorrect(t: seq<char>, ps: seq<seq<char>>)
    requires Build(t, ps).Some?
    ensures Build(t, ps).value <==> Composable(t, ps)
    decreases |t|, |ps| + 1
  {
    if |t| == 0 {
      assert IsArrangement(t, ps, []);
    } else {
      AnyFromCorrect(t, ps, 0);
      if ks :| IsArrangement(t, ps, ks) {
        assert |ks| > 0;
      }
    }
  }

  lemma {:induction false} AnyFromCorrect(t: seq<char>, ps: seq<seq<char>>, i: nat)
    requires |t| > 0 && i <= |ps| && AnyFrom(t, ps, i).Some?
    ensures AnyFrom(t, ps, i).value <==> exists ks :: IsArrangement(t, ps, ks) && |ks| > 0 && ks[0] >= i
    decreases |t|, |ps| - i
  {
    if i == |ps| {
    } else if !IsSubslice(t, ps[i]) {
      AnyFromCorrect(t, ps, i + 1);
    } else {
      var rest := t[|ps[i]|..];
      BuildCorrect(rest, ps);
      if Build(rest, ps) == Some(true) {
        var ks :| IsArrangement(rest, ps, ks);
        ArrangementCons(t, ps, i, ks);
        assert ([i] + ks)[0] == i;
      } else {
        AnyFromCorrect(t, ps, i + 1);
        if ks :| IsArrangement(t, ps, ks) && |ks| > 0 && ks[0] >= i {
          if ks[0] == i {
            assert ks == [i] + ks[1..];
            ArrangementCons(t, ps, i, ks[1..]);
          }
        }
      }
    }
  }

  // ----- part two -----

  /** `can_build_how_many`: 1 for an empty design; otherwise the sum,
      over the patterns that are a prefix of it, of the ways to build the
      rest. */
  function HowMany(t: seq<char>, ps: seq<seq<char>>): (r: Option<nat>)
    ensures |t| == 0 ==> r == Some(1)
    ensures r.None? <==> |t| > 0 && !NonEmpty(ps)
    decreases |t|, |ps| + 1
  {
    if |t| == 0 then Some(1) else SumFrom(t, ps, 0)
  }

  /** The sum over the patterns from number `i` on. */
  function SumFrom(t: seq<char>, ps: seq<seq<char>>, i: nat): (r: Option<nat>)
    requires |t| > 0 && i <= |ps|
    ensures NonEmpty(ps) ==> r.Some?
    ensures (exists j :: i <= j < |ps| && |ps[j]| == 0) ==> r.None?
    decreases |t|, |ps| - i
  {
    if i == |ps| then Some(0)
    else
      var tail := SumFrom(t, ps, i + 1);
      if !IsSubslice(t, ps[i]) then tail
      else if |ps[i]| == 0 then None
      else
        match HowMany(t[|ps[i]|..], ps)
        case None => None
        case Some(n) => if tail.None? then None else Some(n + tail.value)
  }

  /** Every arrangement of `t`, listed in the order the search meets
      them; only defined when every pattern is non-empty, since an empty
      pattern gives infinitely many. */
  ghost function Arrangements(t: seq<char>, ps: seq<seq<char>>): seq<seq<nat>>
    requires NonEmpty(ps)
    decreases |t|, |ps| + 1
  {
    if |t| == 0 then [[]] else ArrangementsFrom(t, ps, 0)
  }

  ghost function ArrangementsFrom(t: seq<char>, ps: seq<seq<char>>, i: nat): seq<seq<nat>>
    requires NonEmpty(ps) && |t| > 0 && i <= |ps|
    decreases |t|, |ps| - i
  {
    if i == |ps| then []
    else
      var tail := ArrangementsFrom(t, ps, i + 1);
      if IsSubslice(t, ps[i]) then Prepend(i, Arrangements(t[|ps[i]|..], ps)) + tail else tail
  }

  ghost function Prepend(i: nat, l: seq<seq<nat>>): (r: seq<seq<nat>>)
    ensures |r| == |l| && forall j :: 0 <= j < |l| ==> r[j] == [i] + l[j]
  {
    seq(|l|, j requires 0 <= j < |l| => [i] + l[j])
  }

  /** `can_build_how_many` counts exactly the arrangements of the design. */
  lemma {:induction false} HowManyCounts(t: seq<char>, ps: seq<seq<char>>)
    requires NonEmpty(ps)
    ensures HowMany(t, ps) == Some(|Arrangements(t, ps)|)
    decreases |t|, |ps| + 1
  {
    if |t| > 0 {
      SumFromCounts(t, ps, 0);
    }
  }

  lemma {:induction false} SumFromCounts(t: seq<char>, ps: seq<seq<char>>, i: nat)
    requires NonEmpty(ps) && |t| > 0 && i <= |ps|
    ensures SumFrom(t, ps, i) == Some(|ArrangementsFrom(t, ps, i)|)
    decreases |t|, |ps| - i
  {
    if i < |ps| {
      SumFromCounts(t, ps, i + 1);
      if IsSubslice(t, ps[i]) {
        HowManyCounts(t[|ps[i]|..], ps);
      }
    }
  }

  /** The list holds every arrangement and nothing else. */
  lemma {:induction false} ArrangementsListed(t: seq<char>, ps: seq<seq<char>>, ks: seq<nat>)
    requires NonEmpty(ps)
    ensures ks in Arrangements(t, ps) <==> IsArrangement(t, ps, ks)
    decreases |t|, |ps| + 1, 0
  {
    if |t| > 0 {
      if IsArrangement(t, ps, ks) {
        assert |ks| > 0;
      }
      ArrangementsFromListed(t, ps, 0, ks);
    }
  }

  lemma {:induction false} ArrangementsFromListed(t: seq<char>, ps: seq<seq<char>>, i: nat, ks: seq<nat>)
    requires NonEmpty(ps) && |t| > 0 && i <= |ps|
    ensures ks in ArrangementsFrom(t, ps, i) <==> IsArrangement(t, ps, ks) && |ks| > 0 && ks[0] >= i
    decreases |t|, |ps| - i, 1
  {
    if i == |ps| {
      if IsArrangement(t, ps, ks) && |ks| > 0 {
        assert ks[0] < |ps|;
      }
    } else {
      var tail := ArrangementsFrom(t, ps, i + 1);
      ArrangementsFromListed(t, ps, i + 1, ks);
      if |ks| > 0 && ks[0] == i {
        assert ks == [i] + ks[1..];
        ArrangementCons(t, ps, i, ks[1..]);
        if IsSubslice(t, ps[i]) {
          var sub := Arrangements(t[|ps[i]|..], ps);
          ArrangementsListed(t[|ps[i]|..], ps, ks[1..]);
          if ks[1..] in sub {
            var j :| 0 <= j < |sub| && sub[j] == ks[1..];
            assert Prepend(i, sub)[j] == ks;
          }
          if ks in Prepend(i, sub) {
            var j :| 0 <= j < |sub| && Prepend(i, sub)[j] == ks;
            assert sub[j] == ks[1..];
          }
        }
      }
    }
  }

  /** No arrangement is listed twice. */
  ghost predicate Distinct(l: seq<seq<nat>>)
  {
    forall a, b :: 0 <= a < b < |l| ==> l[a] != l[b]
  }

  lemma {:induction false} ArrangementsDistinct(t: seq<char>, ps: seq<seq<char>>)
    requires NonEmpty(ps)
    ensures Distinct(Arrangements(t, ps))
    decreases |t|, |ps| + 1
  {
    if |t| > 0 {
      ArrangementsFromDistinct(t, ps, 0);
    }
  }

  lemma {:induction false} ArrangementsFromDistinct(t: seq<char>, ps: seq<seq<char>>, i: nat)
    requires NonEmpty(ps) && |t| > 0 && i <= |ps|
    ensures Distinct(ArrangementsFrom(t, ps, i))
    ensures forall ks :: ks in ArrangementsFrom(t, ps, i) ==> |ks| > 0 && ks[0] >= i
    decreases |t|, |ps| - i
  {
    if i < |ps| {
      var tail := ArrangementsFrom(t, ps, i + 1);
      ArrangementsFromDistinct(t, ps, i + 1);
      if IsSubslice(t, ps[i]) {
        var sub := Arrangements(t[|ps[i]|..], ps);
        ArrangementsDistinct(t[|ps[i]|..], ps);
        var front := Prepend(i, sub);
        assert Distinct(front) by {
          forall a, b | 0 <= a < b < |front|
            ensures front[a] != front[b]
          {
            assert front[a][1..] == sub[a] && front[b][1..] == sub[b];
          }
        }
        var all := front + tail;
        forall a, b | 0 <= a < b < |all|
          ensures all[a] != all[b]
        {
          if a < |front| && b >= |front| {
            assert all[a][0] == i;
            assert all[b] in tail;
          } else if a >= |front| {
            assert all[a] == tail[a - |front|] && all[b] == tail[b - |front|];
          }
        }
        forall ks | ks in all
          ensures |ks| > 0 && ks[0] >= i
        {
          if ks !in tail {
            var j :| 0 <= j < |all| && all[j] == ks;
          }
        }
      }
    }
  }

  /** `can_build` holds exactly when `can_build_how_many` is positive. */
  lemma BuildIffHowMany(t: seq<char>, ps: seq<seq<char>>)
    requires NonEmpty(ps)
    ensures Build(t, ps) == Some(true) <==> HowMany(t, ps).value > 0
  {
    BuildCorrect(t, ps);
    HowManyCounts(t, ps);
    if HowMany(t, ps).value > 0 {
      var ks := Arrangements(t, ps)[0];
      ArrangementsListed(t, ps, ks);
    }
    if Build(t, ps) == Some(true) {
      var ks :| IsArrangement(t, ps, ks);
      ArrangementsListed(t, ps, ks);
    }
  }

  // ----- the puzzle text -----

  /** The first line's patterns: split at commas, one leading space
      dropped; an empty piece panics on its first byte. */
  function Patterns(line: seq<char>): (r: Option<seq<seq<char>>>)
    ensures var pieces := Text.Split(line, ',');
      r.Some? <==> forall k :: 0 <= k < |pieces| ==> |pieces[k]| > 0
    ensures var pieces := Text.Split(line, ',');
      r.Some? ==> |r.value| == |pieces| && forall k :: 0 <= k < |pieces| ==>
        (if pieces[k][0] == ' ' then r.value[k] == pieces[k][1..] else r.value[k] == pieces[k])
  {
    var pieces := Text.Split(line, ',');
    var os := seq(|pieces|, k requires 0 <= k < |pieces| =>
      if |pieces[k]| == 0 then None else if pieces[k][0] == ' ' then Some(pieces[k][1..]) else Some(pieces[k]));
    var r := Collect(os);
    assert r.Some? <==> forall k :: 0 <= k < |pieces| ==> |pieces[k]| > 0 by {
      assert forall k :: 0 <= k < |pieces| ==> (os[k].Some? <==> |pieces[k]| > 0);
    }
    assert r.Some? ==> forall k :: 0 <= k < |pieces| ==>
        (if pieces[k][0] == ' ' then r.value[k] == pieces[k][1..] else r.value[k] == pieces[k]) by {
      if r.Some? {
        forall k | 0 <= k < |pieces|
          ensures if pieces[k][0] == ' ' then r.value[k] == pieces[k][1..] else r.value[k] == pieces[k]
        {
          assert os[k].Some? && r.value[k] == os[k].value;
        }
      }
    }
    r
  }

  /** The designs: every line after the second. */
  function Designs(lines: seq<seq<char>>): (r: seq<seq<char>>)
    ensures |lines| >= 2 ==> |r| == |lines| - 2 && forall k :: 0 <= k < |r| ==> r[k] == lines[k + 2]
    ensures |lines| < 2 ==> r == []
  {
    if |lines| >= 2 then lines[2..] else []
  }

  /** How many designs can be built; `None` if a search diverges. */
  function CountBuildable(designs: seq<seq<char>>, ps: seq<seq<char>>): (r: Option<nat>)
    ensures r.Some? <==> forall k :: 0 <= k < |designs| ==> Build(designs[k], ps).Some?
    ensures r.Some? ==> r.value <= |designs|
    decreases |designs|
  {
    if |designs| == 0 then Some(0)
    else
      var last := designs[|designs| - 1];
      var front := CountBuildable(designs[..|designs| - 1], ps);
      assert forall k :: 0 <= k < |designs| - 1 ==> designs[..|designs| - 1][k] == designs[k];
      if front.None? || Build(last, ps).None? then None
      else Some(front.value + if Build(last, ps).value then 1 else 0)
  }

  /** The number of designs that are concatenations of patterns. */
  ghost function Buildable(designs: seq<seq<char>>, ps: seq<seq<char>>): nat
  {
    if |designs| == 0 then 0
    else Buildable(designs[..|designs| - 1], ps) + if Composable(designs[|designs| - 1], ps) then 1 else 0
  }

  lemma {:induction false} CountBuildableCorrect(designs: seq<seq<char>>, ps: seq<seq<char>>)
    ensures CountBuildable(designs, ps).Some? ==> CountBuildable(designs, ps).value == Buildable(designs, ps)
    decreases |designs|
  {
    if |designs| > 0 && CountBuildable(designs, ps).Some? {
      CountBuildableCorrect(designs[..|designs| - 1], ps);
      BuildCorrect(designs[|designs| - 1], ps);
    }
  }

  /** `part1`: the number of designs that can be built. */
  function Part1(input: seq<char>): (r: Option<nat>)
    ensures var lines := Text.Split(input, '\n'); var ps := Patterns(lines[0]);
      r.Some? ==> ps.Some? && r.value == Buildable(Designs(lines), ps.value)
    ensures var lines := Text.Split(input, '\n'); var ps := Patterns(lines[0]);
      ps.Some? && NonEmpty(ps.value) ==> r.Some?
  {
    var lines := Text.Split(input, '\n');
    match Patterns(lines[0])
    case None => None
    case Some(ps) =>
      CountBuildableCorrect(Designs(lines), ps);
      CountBuildable(Designs(lines), ps)
  }

  /** The ways to build every design, added up. */
  function TotalWays(designs: seq<seq<char>>, ps: seq<seq<char>>): (r: Option<nat>)
    ensures r.Some? <==> forall k :: 0 <= k < |designs| ==> HowMany(designs[k], ps).Some?
    decreases |designs|
  {
    if |designs| == 0 then Some(0)
    else
      var last := designs[|designs| - 1];
      var front := TotalWays(designs[..|designs| - 1], ps);
      assert forall k :: 0 <= k < |designs| - 1 ==> designs[..|designs| - 1][k] == designs[k];
      if front.None? || HowMany(last, ps).None? then None else Some(front.value + HowMany(last, ps).value)
  }

  /** The number of arrangements of all the designs together. */
  ghost function AllArrangements(designs: seq<seq<char>>, ps: seq<seq<char>>): nat
    requires NonEmpty(ps)
  {
    if |designs| == 0 then 0
    else AllArrangements(designs[..|designs| - 1], ps) + |Arrangements(designs[|designs| - 1], ps)|
  }

  lemma {:induction false} TotalWaysCorrect(designs: seq<seq<char>>, ps: seq<seq<char>>)
    ensures NonEmpty(ps) ==> TotalWays(designs, ps) == Some(AllArrangements(designs, ps))
    decreases |designs|
  {
    if |designs| > 0 && NonEmpty(ps) {
      TotalWaysCorrect(designs[..|designs| - 1], ps);
      HowManyCounts(designs[|designs| - 1], ps);
    }
  }

  /** `part2`: the ways to build the designs, summed; it diverges as soon
      as a non-empty design meets an empty pattern. */
  function Part2(input: seq<char>): (r: Option<nat>)
    ensures var lines := Text.Split(input, '\n'); var ps := Patterns(lines[0]);
      ps.Some? && NonEmpty(ps.value) ==> r == Some(AllArrangements(Designs(lines), ps.value))
    ensures var lines := Text.Split(input, '\n'); var ps := Patterns(lines[0]);
      r.Some? ==> ps.Some? && forall k :: 0 <= k < |Designs(lines)| ==> |Designs(lines)[k]| == 0 || NonEmpty(ps.value)
  {
    var lines := Text.Split(input, '\n');
    match Patterns(lines[0])
    case None => None
    case Some(ps) =>
      TotalWaysCorrect(Designs(lines), ps);
      TotalWays(Designs(lines), ps)
  }
}
