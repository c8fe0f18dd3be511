/** Day 22: monkey market. Each buyer's secret number evolves by a fixed
    shift, exclusive-or and mask step; part one sums the 2000th secrets,
    part two finds the four consecutive price changes that earn the most
    bananas when every buyer sells at their first occurrence. */
module Day22 {
  import opened Common
  import opened Bits
  import Decimal
  import Text

  /** `MASK`: the low twenty-four bits set. */
  const Mask: nat := 0xFF_FFFF

  /** 16777216, the modulus the secrets are pruned by. */
  const Modulus: nat := 0x100_0000

  lemma MaskIsLow24()
    ensures Pow2(24) == Modulus && Mask == Modulus - 1
  {
    assert Pow2(8) == 256 by {
      assert Pow2(4) == 16;
    }
    assert Pow2(24) == Pow2(8) * Pow2(8) * Pow2(8) by {
      Pow2Add(8, 8);
      Pow2Add(16, 8);
    }
  }

  /** `usize_from_bytes`: place-value parsing with a ten-entry power
      table, so a longer line would index past the table and panic. */
  function UsizeFromBytes(bs: seq<char>): (n: nat)
    requires |bs| <= 10
    ensures Decimal.IsDecimalText(bs) ==> n == Decimal.Parse(bs) < Decimal.Pow10(10)
  {
    if Decimal.IsDecimalText(bs) then
      Decimal.PlaceValueWithin(bs, 10);
      Decimal.PlaceValue(bs)
    else Decimal.PlaceValue(bs)
  }

  /** A line's initial secret; `None` where the power table panics. */
  function Seed(line: seq<char>): (r: Option<nat>)
    ensures r.Some? <==> |line| <= 10
  {
    if |line| <= 10 then Some(UsizeFromBytes(line)) else None
  }

  /** `next`: shift left by 6, by right 5 and left by 11, each step
      exclusive-or-ed into the secret and masked to 24 bits. A seed has at
      most ten digits and every later value 24 bits, so no shift overflows
      a 64-bit `usize`. */
  function Next(x: nat): (r: nat)
    ensures r < Modulus
  {
    var a := MixMask(Shl(x, 6), x);
    var b := MixMask(Shr(a, 5), a);
    MixMask(Shl(b, 11), b)
  }

  /** `(v ^ x) & MASK`: masking to the low 24 bits is the puzzle's pruning,
      the remainder modulo 16777216. */
  function MixMask(v: nat, x: nat): (r: nat)
    ensures r == Xor(v, x) % Modulus
  {
    MaskIsLow24();
    AndMask(Xor(v, x), 24);
    And(Xor(v, x), Mask)
  }

  /** The puzzle's description of the same step: multiply by 64, mix
      (exclusive or) and prune (remainder modulo 16777216); divide by 32,
      mix and prune; multiply by 2048, mix and prune. */
  lemma NextMixPrune(x: nat)
    ensures var a := Xor(x * 64, x) % Modulus;
      var b := Xor(a / 32, a) % Modulus;
      Next(x) == Xor(b * 2048, b) % Modulus
  {
    assert Pow2(6) == 64 && Pow2(5) == 32 && Pow2(11) == 2048 by {
      assert Pow2(5) == 32;
    }
  }

  /** `(0..n).fold(x, |acc, _| next(acc))`: `n` steps of `next`. */
  function Iterate(x: nat, n: nat): (r: nat)
    ensures n >= 1 ==> r < Modulus
    decreases n
  {
    if n == 0 then x else Iterate(Next(x), n - 1)
  }

  /** Steps compose: `m` steps and then `n` more are `m + n` steps. */
  lemma {:induction false} IterateAdd(x: nat, m: nat, n: nat)
    ensures Iterate(Iterate(x, m), n) == Iterate(x, m + n)
    decreases m
  {
    if m > 0 {
      var y := Next(x);
      assert Iterate(x, m) == Iterate(y, m - 1);
      assert Iterate(x, m + n) == Iterate(y, m - 1 + n);
      IterateAdd(y, m - 1, n);
    }
  }

  /** The lines' seeds; `None` where a line panics. */
  function Seeds(lines: seq<seq<char>>): (r: Option<seq<nat>>)
    ensures r.Some? <==> forall i :: 0 <= i < |lines| ==> |lines[i]| <= 10
    ensures r.Some? ==> |r.value| == |lines| && forall i :: 0 <= i < |lines| ==> Seed(lines[i]) == Some(r.value[i])
  {
    var os := seq(|lines|, i requires 0 <= i < |lines| => Seed(lines[i]));
    assert forall i :: 0 <= i < |lines| ==> os[i] == Seed(lines[i]);
    Collect(os)
  }

  /** The 2000th secret of each seed. */
  function Secrets(seeds: seq<nat>, n: nat): (r: seq<int>)
    ensures |r| == |seeds|
    ensures forall i :: 0 <= i < |seeds| ==> r[i] == Iterate(seeds[i], n)
  {
    seq(|seeds|, i requires 0 <= i < |seeds| => Iterate(seeds[i], n))
  }

  /** A sum of values each below `m` is below `m` times their count. */
  lemma {:induction false} SumBelow(s: seq<int>, m: nat)
    requires forall i :: 0 <= i < |s| ==> 0 <= s[i] < m
    ensures 0 <= Sum(s) <= |s| * m
    decreases |s|
  {
    if |s| > 0 {
      SumBelow(s[..|s| - 1], m);
      assert (|s| - 1) * m + m == |s| * m;
    }
  }

  /** Part one: the sum of every buyer's 2000th secret, each of them below
      2^24; `None` where a line panics. */
  function Part1(input: seq<char>): (r: Option<nat>)
    ensures r.Some? <==> Seeds(Text.Split(input, '\n')).Some?
    ensures r.Some? ==> r.value <= |Text.Split(input, '\n')| * Modulus
    ensures r.Some? ==> r.value == Sum(Secrets(Seeds(Text.Split(input, '\n')).value, 2000))
  {
    match Seeds(Text.Split(input, '\n'))
    case None => None
    case Some(seeds) =>
      var s := Secrets(seeds, 2000);
      SumBelow(s, Modulus);
      Some(Sum(s))
  }

  // ----- part two -----

  /** The loop that records `x % 10` and then steps the secret, `n` times:
      the price at each of the first `n` secrets. */
  function Prices(x: nat, n: nat): (r: seq<int>)
    ensures |r| == n
    ensures forall k :: 0 <= k < n ==> r[k] == Iterate(x, k) % 10
    decreases n
  {
    if n == 0 then []
    else
      var rest := Prices(Next(x), n - 1);
      var r := [x % 10] + rest;
      assert forall k :: 1 <= k < n ==> r[k] == rest[k - 1];
      r
  }

  /** `windows(2).map(|w| w[1] - w[0])`: the change between neighbours. */
  function Diffs(p: seq<int>): (r: seq<int>)
    ensures |r| == if |p| == 0 then 0 else |p| - 1
    ensures forall k :: 0 <= k < |r| ==> r[k] == p[k + 1] - p[k]
  {
    if |p| < 2 then []
    else
      var rest := Diffs(p[1..]);
      var r := [p[1] - p[0]] + rest;
      assert forall k :: 1 <= k < |r| ==> r[k] == rest[k - 1];
      r
  }

  /** Prices are single digits, so every change is between -9 and 9. */
  lemma DiffsBound(p: seq<int>)
    requires forall k :: 0 <= k < |p| ==> 0 <= p[k] <= 9
    ensures forall k :: 0 <= k < |Diffs(p)| ==> -9 <= Diffs(p)[k] <= 9
  {
  }

  /** The window of `w`'s length starting at `j` equals `w`. */
  predicate At(d: seq<int>, w: seq<int>, j: nat)
  {
    j + |w| <= |d| && d[j..j + |w|] == w
  }

  /** `w` occurs somewhere in `d`. */
  ghost predicate Occurs(d: seq<int>, w: seq<int>)
  {
    exists j: nat :: At(d, w, j)
  }

  /** `j` is where `w` first occurs in `d`. */
  predicate First(d: seq<int>, w: seq<int>, j: nat)
  {
    At(d, w, j) && forall i: nat :: i < j ==> !At(d, w, i)
  }

  /** `windows(w.len()).position(|x| x == w)`, searching from `from`. */
  function Position(d: seq<int>, w: seq<int>, from: nat): (r: Option<nat>)
    ensures r.Some? ==> from <= r.value && At(d, w, r.value)
    ensures r.Some? ==> forall j: nat :: from <= j < r.value ==> !At(d, w, j)
    ensures r.None? ==> forall j: nat :: from <= j ==> !At(d, w, j)
    decreases |d| - from
  {
    if from + |w| > |d| then None
    else if d[from..from + |w|] == w then Some(from)
    else Position(d, w, from + 1)
  }

  /** What one buyer pays for the change sequence `combo`: the price just
      after its first occurrence, or nothing. */
  function Bid(p: seq<int>, combo: seq<int>): (r: nat)
    requires |combo| == 4 && IsPrices(p)
    ensures r <= 9
    ensures !Occurs(Diffs(p), combo) ==> r == 0
    ensures forall j: nat :: First(Diffs(p), combo, j) ==> r == p[j + 4]
  {
    match Position(Diffs(p), combo, 0)
    case None => 0
    case Some(pos) =>
      assert First(Diffs(p), combo, pos);
      FirstIsUnique(Diffs(p), combo, pos);
      p[pos + 4]
  }

  /** Two first occurrences are the same occurrence. */
  lemma FirstIsUnique(d: seq<int>, w: seq<int>, pos: nat)
    requires First(d, w, pos)
    ensures forall j: nat :: First(d, w, j) ==> j == pos
  {
    forall j: nat | First(d, w, j)
      ensures j == pos
    {
      assert j < pos ==> !At(d, w, j);
      assert pos < j ==> !At(d, w, pos);
    }
  }

  predicate IsPrices(p: seq<int>)
  {
    forall k :: 0 <= k < |p| ==> 0 <= p[k] <= 9
  }

  /** The bananas `combo` earns across all buyers. */
  function Gain(buyers: seq<seq<int>>, combo: seq<int>): (r: nat)
    requires |combo| == 4
    requires forall i :: 0 <= i < |buyers| ==> IsPrices(buyers[i])
    ensures r <= 9 * |buyers|
  {
    if |buyers| == 0 then 0
    else Bid(buyers[0], combo) + Gain(buyers[1..], combo)
  }

  /** The run of four changes starting at `j`. */
  function Window(d: seq<int>, j: nat): seq<int>
    requires j + 4 <= |d|
  {
    d[j..j + 4]
  }

  /** The runs of four consecutive changes in one buyer's changes. */
  function Windows(d: seq<int>): (r: set<seq<int>>)
    ensures forall c :: c in r <==> |c| == 4 && Occurs(d, c)
  {
    var r := set j: nat | j + 4 <= |d| :: Window(d, j);
    assert forall c :: |c| == 4 && Occurs(d, c) ==> c in r by {
      forall c | |c| == 4 && Occurs(d, c)
        ensures c in r
      {
        var j: nat :| At(d, c, j);
        assert Window(d, j) == c;
      }
    }
    assert forall j: nat :: j + 4 <= |d| ==> At(d, Window(d, j), j);
    r
  }

  /** Some buyer's changes contain `c`. */
  ghost predicate SomeBuyer(buyers: seq<seq<int>>, c: seq<int>)
  {
    exists i :: 0 <= i < |buyers| && Occurs(Diffs(buyers[i]), c)
  }

  lemma SomeBuyerCons(buyers: seq<seq<int>>)
    requires |buyers| > 0
    ensures forall c :: SomeBuyer(buyers, c) <==> Occurs(Diffs(buyers[0]), c) || SomeBuyer(buyers[1..], c)
  {
    forall c
      ensures SomeBuyer(buyers, c) <==> Occurs(Diffs(buyers[0]), c) || SomeBuyer(buyers[1..], c)
    {
      if SomeBuyer(buyers[1..], c) {
        var i :| 0 <= i < |buyers| - 1 && Occurs(Diffs(buyers[1..][i]), c);
        assert buyers[1..][i] == buyers[i + 1];
      }
      if SomeBuyer(buyers, c) {
        var i :| 0 <= i < |buyers| && Occurs(Diffs(buyers[i]), c);
        if i > 0 {
          assert buyers[1..][i - 1] == buyers[i];
        }
      }
    }
  }

  /** Every run of four consecutive changes in some buyer's prices: the
      set `part2` collects before taking the maximum. */
  function Combos(buyers: seq<seq<int>>): (r: set<seq<int>>)
    ensures forall c :: c in r <==> |c| == 4 && SomeBuyer(buyers, c)
  {
    if |buyers| == 0 then {}
    else
      SomeBuyerCons(buyers);
      Windows(Diffs(buyers[0])) + Combos(buyers[1..])
  }

  /** A buyer with at least five prices gives at least one combination. */
  lemma CombosNonEmpty(buyers: seq<seq<int>>, i: nat)
    requires i < |buyers| && |buyers[i]| >= 5
    ensures Combos(buyers) != {}
  {
    var d := Diffs(buyers[i]);
    assert At(d, d[0..4], 0);
  }

  /** Each buyer's first 2000 prices. */
  function Market(seeds: seq<nat>): (r: seq<seq<int>>)
    ensures |r| == |seeds|
    ensures forall i :: 0 <= i < |seeds| ==> IsPrices(r[i]) && |r[i]| == 2000
    ensures forall i :: 0 <= i < |seeds| ==> r[i] == Prices(seeds[i], 2000)
  {
    seq(|seeds|, i requires 0 <= i < |seeds| => Prices(seeds[i], 2000))
  }

  /** The greatest gain over the combinations; the loop stands for the
      parallel `max` over the set. */
  method BestGain(buyers: seq<seq<int>>, combos: set<seq<int>>) returns (best: nat)
    requires forall i :: 0 <= i < |buyers| ==> IsPrices(buyers[i])
    requires combos != {} && forall c :: c in combos ==> |c| == 4
    ensures exists c :: c in combos && best == Gain(buyers, c)
    ensures forall c :: c in combos ==> Gain(buyers, c) <= best
  {
    var first :| first in combos;
    best := Gain(buyers, first);
    ghost var arg := first;
    var todo := combos - {first};
    while todo != {}
      invariant todo <= combos
      invariant arg in combos && best == Gain(buyers, arg)
      invariant forall c :: c in combos && c !in todo ==> Gain(buyers, c) <= best
      decreases |todo|
    {
      var c :| c in todo;
      var g := Gain(buyers, c);
      if g > best {
        best, arg := g, c;
      }
      todo := todo - {c};
    }
  }

  /** Part two: the most bananas one sequence of four changes earns;
      `None` where a line panics. The input always has a line, and each
      line 2000 prices, so the `unwrap` of the maximum never fails. */
  method Part2(input: seq<char>) returns (r: Option<nat>)
    ensures r.Some? <==> Seeds(Text.Split(input, '\n')).Some?
    ensures r.Some? ==> var buyers := Market(Seeds(Text.Split(input, '\n')).value);
      (exists c :: c in Combos(buyers) && r.value == Gain(buyers, c)) &&
      (forall c :: c in Combos(buyers) ==> Gain(buyers, c) <= r.value)
  {
    var seeds := Seeds(Text.Split(input, '\n'));
    if seeds.None? {
      return None;
    }
    var buyers := Market(seeds.value);
    CombosNonEmpty(buyers, 0);
    var best := BestGain(buyers, Combos(buyers));
    r := Some(best);
  }
}
