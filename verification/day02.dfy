/** Day 2: reports of levels, safe when they move steadily in one
    direction, and safe with the dampener when dropping one level makes
    them safe. */
module Day02 {
  import opened Common
  import Decimal
  import Text

  /** `u32_from_bytes`: place-value parsing with a six-entry power table,
      the same parser day 1 declares as `i32_from_bytes`. */
  function U32FromBytes(bs: seq<char>): (n: nat)
    requires |bs| <= 6
    ensures Decimal.IsDecimalText(bs) ==> n == Decimal.Parse(bs) < Decimal.Pow10(6)
  {
    if Decimal.IsDecimalText(bs) then Decimal.PlaceValueWithin(bs, 6); Decimal.PlaceValue(bs)
    else Decimal.PlaceValue(bs)
  }

  /** Every step rises by 1, 2 or 3. */
  predicate Rising(v: seq<int>)
  {
    forall i :: 0 <= i < |v| - 1 ==> v[i] + 1 <= v[i + 1] <= v[i] + 3
  }

  /** Every step falls by 1, 2 or 3. */
  predicate Falling(v: seq<int>)
  {
    forall i :: 0 <= i < |v| - 1 ==> v[i] - 3 <= v[i + 1] <= v[i] - 1
  }

  function Reverse(v: seq<int>): (r: seq<int>)
    ensures |r| == |v|
    ensures forall i :: 0 <= i < |v| ==> r[i] == v[|v| - 1 - i]
  {
    if |v| == 0 then [] else [v[|v| - 1]] + Reverse(v[..|v| - 1])
  }

  /** The check in `part1`: reverse a report whose second level is below
      its first, then demand that every step rises by 1 to 3. A report is
      safe exactly when it rises throughout or falls throughout. */
  function Safe(v: seq<int>): (b: bool)
    requires |v| >= 2
    ensures b <==> Rising(v) || Falling(v)
  {
    if v[1] < v[0] then
      RisingReverse(v);
      Rising(Reverse(v))
    else
      Rising(v)
  }

  lemma RisingReverse(v: seq<int>)
    ensures Rising(Reverse(v)) <==> Falling(v)
  {
    var w := Reverse(v);
    if Rising(w) {
      forall i | 0 <= i < |v| - 1 ensures v[i] - 3 <= v[i + 1] <= v[i] - 1 {
        var j := |v| - 2 - i;
        assert w[j] == v[i + 1] && w[j + 1] == v[i];
      }
    }
    if Falling(v) {
      forall j | 0 <= j < |w| - 1 ensures w[j] + 1 <= w[j + 1] <= w[j] + 3 {
        var i := |v| - 2 - j;
        assert w[j] == v[i + 1] && w[j + 1] == v[i];
      }
    }
  }

  /** Two equal neighbouring levels make a report unsafe. */
  lemma EqualNeighboursUnsafe(v: seq<int>, i: nat)
    requires |v| >= 2 && i + 1 < |v| && v[i] == v[i + 1]
    ensures !Safe(v)
  {
  }

  function RemoveAt(v: seq<int>, d: nat): (r: seq<int>)
    requires d < |v|
    ensures |r| == |v| - 1
  {
    v[..d] + v[d + 1..]
  }

  /** The labelled loop of `part2`: try dropping level d, d + 1, ... in
      turn and stop at the first that leaves a safe report. */
  function SafeDroppingFrom(v: seq<int>, d: nat): (b: bool)
    requires |v| >= 3 && d <= |v|
    ensures b <==> exists k :: d <= k < |v| && Safe(RemoveAt(v, k))
    decreases |v| - d
  {
    if d == |v| then false
    else if Safe(RemoveAt(v, d)) then true
    else SafeDroppingFrom(v, d + 1)
  }

  /** Safety with the problem dampener. The source needs three levels:
      with two, dropping one leaves a single level and `vec2[1]` panics. */
  function SafeDampened(v: seq<int>): (b: bool)
    requires |v| >= 3
    ensures b <==> exists k :: 0 <= k < |v| && Safe(RemoveAt(v, k))
  {
    SafeDroppingFrom(v, 0)
  }

  /** A safe report stays safe with the dampener: dropping the first
      level keeps every remaining step. */
  lemma SafeIsSafeDampened(v: seq<int>)
    requires |v| >= 3 && Safe(v)
    ensures SafeDampened(v)
  {
    var w := RemoveAt(v, 0);
    assert forall i :: 0 <= i < |w| ==> w[i] == v[i + 1];
    if Rising(v) {
      forall i | 0 <= i < |w| - 1 ensures w[i] + 1 <= w[i + 1] <= w[i] + 3 {
        assert w[i] == v[i + 1] && w[i + 1] == v[i + 2];
      }
    } else {
      forall i | 0 <= i < |w| - 1 ensures w[i] - 3 <= w[i + 1] <= w[i] - 1 {
        assert w[i] == v[i + 1] && w[i + 1] == v[i + 2];
      }
    }
    assert Safe(RemoveAt(v, 0));
  }

  /** One report: its space-separated levels, `None` if a field is too
      long for the power table. */
  function ParseReport(line: seq<char>): (r: Option<seq<nat>>)
    ensures r.Some? ==> |r.value| == |Text.Split(line, ' ')|
  {
    var f := Text.Split(line, ' ');
    if forall i :: 0 <= i < |f| ==> |f[i]| <= 6 then
      Some(seq(|f|, i requires 0 <= i < |f| && |f[i]| <= 6 => U32FromBytes(f[i])))
    else None
  }

  /** A report of at least two levels that rises or falls throughout. */
  predicate SafeReport(v: seq<int>)
  {
    |v| >= 2 && (Rising(v) || Falling(v))
  }

  /** A report of at least three levels that is safe once one level is
      dropped. */
  predicate DampenedReport(v: seq<int>)
  {
    |v| >= 3 && exists k :: 0 <= k < |v| && Safe(RemoveAt(v, k))
  }

  /** Number of safe reports: the indices of the safe ones. Every report
      needs two levels, or `vec[1]` panics. */
  function CountSafe(reports: seq<seq<int>>): (n: nat)
    requires forall i :: 0 <= i < |reports| ==> |reports[i]| >= 2
    ensures n == |Hits(reports, SafeReport)| <= |reports|
  {
    HitsBound(reports, SafeReport);
    if |reports| == 0 then
      assert Hits(reports, SafeReport) == {};
      0
    else
      HitsLast(reports, SafeReport);
      CountSafe(reports[..|reports| - 1]) + (if Safe(reports[|reports| - 1]) then 1 else 0)
  }

  /** Number of reports safe with the dampener. */
  function CountSafeDampened(reports: seq<seq<int>>): (n: nat)
    requires forall i :: 0 <= i < |reports| ==> |reports[i]| >= 3
    ensures n == |Hits(reports, DampenedReport)| <= |reports|
  {
    HitsBound(reports, DampenedReport);
    if |reports| == 0 then
      assert Hits(reports, DampenedReport) == {};
      0
    else
      HitsLast(reports, DampenedReport);
      CountSafeDampened(reports[..|reports| - 1]) + (if SafeDampened(reports[|reports| - 1]) then 1 else 0)
  }

  /** The dampener never makes fewer reports safe. */
  lemma {:induction false} DampenedCountsMore(reports: seq<seq<int>>)
    requires forall i :: 0 <= i < |reports| ==> |reports[i]| >= 3
    ensures CountSafe(reports) <= CountSafeDampened(reports)
    decreases |reports|
  {
    if |reports| > 0 {
      var init := reports[..|reports| - 1];
      DampenedCountsMore(init);
      if Safe(reports[|reports| - 1]) {
        SafeIsSafeDampened(reports[|reports| - 1]);
      }
    }
  }

  /** The levels of every line, `None` if some field panics. */
  function ParseReports(lines: seq<seq<char>>): (r: Option<seq<seq<int>>>)
    ensures r.Some? ==> |r.value| == |lines|
  {
    if |lines| == 0 then Some([])
    else
      var prev := ParseReports(lines[..|lines| - 1]);
      var last := ParseReport(lines[|lines| - 1]);
      if prev.None? || last.None? then None
      else Some(prev.value + [last.value])
  }

  /** `None` when parsing panics or some report is too short to index. */
  function Part1(input: seq<char>): (r: Option<nat>)
    ensures r.Some? <==> (ParseReports(Text.Lines(input)).Some? &&
                          forall i :: 0 <= i < |Text.Lines(input)| ==> |ParseReports(Text.Lines(input)).value[i]| >= 2)
    ensures r.Some? ==> r.value == |Hits(ParseReports(Text.Lines(input)).value, SafeReport)| <= |Text.Lines(input)|
  {
    match ParseReports(Text.Lines(input))
    case None => None
    case Some(reports) =>
      if forall i :: 0 <= i < |reports| ==> |reports[i]| >= 2 then Some(CountSafe(reports)) else None
  }

  function Part2(input: seq<char>): (r: Option<nat>)
    ensures r.Some? <==> (ParseReports(Text.Lines(input)).Some? &&
                          forall i :: 0 <= i < |Text.Lines(input)| ==> |ParseReports(Text.Lines(input)).value[i]| >= 3)
    ensures r.Some? ==> r.value == |Hits(ParseReports(Text.Lines(input)).value, DampenedReport)| <= |Text.Lines(input)|
    ensures r.Some? ==> Part1(input).Some? && Part1(input).value <= r.value
  {
    match ParseReports(Text.Lines(input))
    case None => None
    case Some(reports) =>
      if forall i :: 0 <= i < |reports| ==> |reports[i]| >= 3 then
        DampenedCountsMore(reports);
        Some(CountSafeDampened(reports))
      else None
  }
}
