/** Day 11: stones that change every time one blinks. `process` counts
    the stones one engraved stone becomes; the memo table of the source
    is left to the recursion. */
module Day11 {
  import opened Common
  import opened Bits
  import Decimal
  import Text

  /** The number of decimal digits, the length of `format!("{}", n)`. */
  function Width(n: nat): nat
  {
    |Decimal.Digits(n)|
  }

  /** `n` cut before its last `k` digits, both parts read as numbers. */
  function Cut(n: nat, k: nat): (nat, nat)
    decreases k
  {
    if k == 0 then (n, 0)
    else
      var (left, right) := Cut(n / 10, k - 1);
      (left, right * 10 + n % 10)
  }

  /** The left and right halves of the digits of an even-width number. */
  function Halves(n: nat): (nat, nat)
  {
    Cut(n, Width(n) / 2)
  }

  /** Cutting the digits of `n` cuts its digit sequence. */
  lemma {:induction false} CutDigits(n: nat, k: nat)
    requires k < |Decimal.Digits(n)|
    ensures var ds := Decimal.Digits(n); var m := |ds| - k;
      Cut(n, k) == (Decimal.Value(ds[..m]), Decimal.Value(ds[m..]))
    decreases k
  {
    if k > 0 {
      var ds, ds' := Decimal.Digits(n), Decimal.Digits(n / 10);
      assert ds == ds' + [n % 10];
      CutDigits(n / 10, k - 1);
      var m := |ds| - k;
      assert ds[..m] == ds'[..m];
      assert ds[m..] == ds'[m..] + [n % 10];
      assert ds[m..][..|ds[m..]| - 1] == ds'[m..];
    } else {
      var ds := Decimal.Digits(n);
      assert ds[..|ds|] == ds;
      assert ds[|ds|..] == [];
      Decimal.ValueOfDigits(n);
    }
  }

  /** The halves are what `parse` reads from the two halves of
      `format!("{}", n)`: the right half loses its leading zeros. */
  lemma HalvesParse(n: nat)
    requires Width(n) % 2 == 0
    ensures var s := Decimal.DecimalString(n); var h := |s| / 2;
      Halves(n) == (Decimal.Parse(s[..h]), Decimal.Parse(s[h..]))
  {
    var s, ds := Decimal.DecimalString(n), Decimal.Digits(n);
    var h := |s| / 2;
    assert h == Width(n) / 2 && |ds| - h == h;
    CutDigits(n, h);
    HalfDigits(n);
    assert Decimal.Parse(s[..h]) == Decimal.Value(ds[..h]);
    assert Decimal.Parse(s[h..]) == Decimal.Value(ds[h..]);
  }

  lemma HalfDigits(n: nat)
    ensures var s := Decimal.DecimalString(n); var h := |s| / 2;
      Decimal.DigitValues(s[..h]) == Decimal.Digits(n)[..h] &&
      Decimal.DigitValues(s[h..]) == Decimal.Digits(n)[h..]
  {
    Decimal.DigitValuesOfString(n);
  }

  /** Splitting an even-width number: the left half has exactly half the
      digits, the right half fewer than that many, and the two recombine
      to `n`. */
  lemma HalvesSplit(n: nat)
    requires Width(n) % 2 == 0
    ensures Halves(n).0 * Decimal.Pow10(Width(n) / 2) + Halves(n).1 == n
    ensures Halves(n).1 < Decimal.Pow10(Width(n) / 2)
    ensures Width(Halves(n).0) == Width(n) / 2
  {
    var ds := Decimal.Digits(n);
    var h := |ds| / 2;
    CutDigits(n, h);
    assert |ds| - h == h;
    Decimal.ValueOfDigits(n);
    SplitValue(ds, h);
    SplitLeftWidth(ds, h);
  }

  /** A digit sequence cut at `h`: the two values recombine to the
      whole and the right one is below `10^(|ds| - h)`. */
  lemma SplitValue(ds: seq<nat>, h: nat)
    requires Decimal.IsDigitSeq(ds) && h <= |ds|
    ensures Decimal.Value(ds[..h]) * Decimal.Pow10(|ds| - h) + Decimal.Value(ds[h..]) == Decimal.Value(ds)
    ensures Decimal.Value(ds[h..]) < Decimal.Pow10(|ds| - h)
  {
    assert ds == ds[..h] + ds[h..];
    Decimal.ValueConcat(ds[..h], ds[h..]);
    Decimal.ValueBound(ds[h..]);
  }

  /** The left part of a canonical digit sequence keeps all its digits. */
  lemma SplitLeftWidth(ds: seq<nat>, h: nat)
    requires Decimal.IsCanonical(ds) && 0 < h <= |ds|
    ensures Width(Decimal.Value(ds[..h])) == h
  {
    assert Decimal.IsCanonical(ds[..h]) by {
      assert ds[..h][0] == ds[0];
    }
    Decimal.DigitsOfValue(ds[..h]);
  }

  /** `process`: how many stones `n` turns into after `times` blinks. */
  function Process(n: nat, times: nat): (r: nat)
    ensures 1 <= r <= Pow2(times)
    decreases times
  {
    if times == 0 then 1
    else if n == 0 then Process(1, times - 1)
    else if Width(n) % 2 == 0 then
      Process(Halves(n).0, times - 1) + Process(Halves(n).1, times - 1)
    else Process(n * 2024, times - 1)
  }

  // ----- the row of stones, blink by blink -----

  /** What one stone becomes in one blink, by the puzzle's three rules. */
  function Rule(n: nat): (r: seq<nat>)
    ensures 1 <= |r| <= 2
  {
    if n == 0 then [1]
    else if Width(n) % 2 == 0 then [Halves(n).0, Halves(n).1]
    else [n * 2024]
  }

  /** One blink over a whole row, each stone replaced in place. */
  function Blink(s: seq<nat>): (r: seq<nat>)
    ensures |s| <= |r| <= 2 * |s|
  {
    if |s| == 0 then [] else Rule(s[0]) + Blink(s[1..])
  }

  function Blinks(s: seq<nat>, times: nat): seq<nat>
    decreases times
  {
    if times == 0 then s else Blinks(Blink(s), times - 1)
  }

  /** Stones change independently: blinking a row is blinking its parts. */
  lemma {:induction false} BlinkAppend(a: seq<nat>, b: seq<nat>)
    ensures Blink(a + b) == Blink(a) + Blink(b)
    decreases |a|
  {
    if |a| > 0 {
      assert (a + b)[0] == a[0] && (a + b)[1..] == a[1..] + b;
      BlinkAppend(a[1..], b);
    } else {
      assert a + b == b;
    }
  }

  lemma {:induction false} BlinksAppend(a: seq<nat>, b: seq<nat>, times: nat)
    ensures Blinks(a + b, times) == Blinks(a, times) + Blinks(b, times)
    decreases times
  {
    if times > 0 {
      BlinkAppend(a, b);
      BlinksAppend(Blink(a), Blink(b), times - 1);
    }
  }

  /** `process` adds up the counts of what the rules turn a stone into. */
  lemma ProcessRule(n: nat, times: nat)
    requires times > 0
    ensures |Rule(n)| == 1 ==> Process(n, times) == Process(Rule(n)[0], times - 1)
    ensures |Rule(n)| == 2 ==> Process(n, times) == Process(Rule(n)[0], times - 1) + Process(Rule(n)[1], times - 1)
  {
  }

  /** The memoised count is the length of the simulated row. */
  lemma {:induction false} ProcessCountsStones(n: nat, times: nat)
    ensures Process(n, times) == |Blinks([n], times)|
    decreases times
  {
    if times > 0 {
      var rule := Rule(n);
      assert Blink([n]) == rule by {
        assert [n][1..] == [];
      }
      assert Blinks([n], times) == Blinks(rule, times - 1);
      ProcessRule(n, times);
      ProcessCountsStones(rule[0], times - 1);
      if |rule| == 1 {
        assert rule == [rule[0]];
        assert Process(n, times) == Process(rule[0], times - 1);
        assert |Blinks(rule, times - 1)| == |Blinks([rule[0]], times - 1)|;
      } else {
        assert rule == [rule[0]] + [rule[1]];
        BlinksAppend([rule[0]], [rule[1]], times - 1);
        ProcessCountsStones(rule[1], times - 1);
        assert Process(n, times) == Process(rule[0], times - 1) + Process(rule[1], times - 1);
        assert |Blinks(rule, times - 1)| == |Blinks([rule[0]], times - 1)| + |Blinks([rule[1]], times - 1)|;
      }
    }
  }

  // ----- the input -----

  /** The stones of the input: one number per space-separated word;
      `None` where `parse::<usize>().unwrap()` panics. */
  function Stones(words: seq<seq<char>>): (r: Option<seq<nat>>)
    ensures r.Some? <==> forall i :: 0 <= i < |words| ==> Decimal.ParseNat(words[i]).Some?
    ensures r.Some? ==> |r.value| == |words|
    ensures r.Some? ==> forall i :: 0 <= i < |words| ==> r.value[i] == Decimal.ParseNat(words[i]).value
  {
    if |words| == 0 then Some([])
    else
      match (Decimal.ParseNat(words[0]), Stones(words[1..]))
      case (Some(x), Some(rest)) => Some([x] + rest)
      case (None, _) => None
      case (_, None) =>
        var i :| 0 <= i < |words[1..]| && Decimal.ParseNat(words[1..][i]).None?;
        assert words[i + 1] == words[1..][i];
        None
  }

  /** The sum of `process(n, times)` over the row. */
  function Total(stones: seq<nat>, times: nat): (r: nat)
    ensures |stones| <= r
  {
    if |stones| == 0 then 0 else Process(stones[0], times) + Total(stones[1..], times)
  }

  /** The per-stone counts add up to the length of the whole row. */
  lemma {:induction false} TotalIsRowLength(stones: seq<nat>, times: nat)
    ensures Total(stones, times) == |Blinks(stones, times)|
    decreases |stones|
  {
    if |stones| > 0 {
      assert stones == [stones[0]] + stones[1..];
      BlinksAppend([stones[0]], stones[1..], times);
      assert Blinks(stones, times) == Blinks([stones[0]], times) + Blinks(stones[1..], times);
      ProcessCountsStones(stones[0], times);
      TotalIsRowLength(stones[1..], times);
    } else {
      NoStones(times);
    }
  }

  lemma {:induction false} NoStones(times: nat)
    ensures Blinks([], times) == []
  {
    if times > 0 {
      NoStones(times - 1);
    }
  }

  /** `part1` (25 blinks) and `part2` (75 blinks). */
  function Solve(input: seq<char>, times: nat): (r: Option<nat>)
    ensures r.Some? <==> Stones(Text.Split(input, ' ')).Some?
    ensures r.Some? ==> r.value == |Blinks(Stones(Text.Split(input, ' ')).value, times)|
  {
    match Stones(Text.Split(input, ' '))
    case None => None
    case Some(stones) =>
      TotalIsRowLength(stones, times);
      Some(Total(stones, times))
  }

  function Part1(input: seq<char>): (r: Option<nat>)
    ensures r.Some? <==> Stones(Text.Split(input, ' ')).Some?
    ensures r.Some? ==> r.value == |Blinks(Stones(Text.Split(input, ' ')).value, 25)|
  {
    Solve(input, 25)
  }

  function Part2(input: seq<char>): (r: Option<nat>)
    ensures r.Some? <==> Stones(Text.Split(input, ' ')).Some?
    ensures r.Some? ==> r.value == |Blinks(Stones(Text.Split(input, ' ')).value, 75)|
  {
    Solve(input, 75)
  }

  /** Each stone ends as at least one and at most 2^25 stones. */
  lemma Part1Bounds(input: seq<char>)
    requires Stones(Text.Split(input, ' ')).Some?
    ensures var n := |Stones(Text.Split(input, ' ')).value|;
      n <= Part1(input).value <= n * Pow2(25)
  {
    var stones := Stones(Text.Split(input, ' ')).value;
    TotalIsRowLength(stones, 25);
    TotalAtMost(stones, 25);
  }

  lemma {:induction false} TotalAtMost(stones: seq<nat>, times: nat)
    ensures Total(stones, times) <= |stones| * Pow2(times)
    decreases |stones|
  {
    if |stones| > 0 {
      TotalAtMost(stones[1..], times);
      assert |stones| * Pow2(times) == (|stones| - 1) * Pow2(times) + Pow2(times);
    }
  }
}
