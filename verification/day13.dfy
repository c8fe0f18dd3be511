/** Day 13: claw machines. Each machine is a pair of linear equations in
    the two button counts; Cramer's rule solves it, and a machine pays
    three tokens per A press and one per B press when the solution is a
    pair of whole, non-negative counts. */
module Day13 {
  import opened Common
  import Decimal
  import Text

  const CostA: nat := 3
  const CostB: nat := 1

  /** The prize shift of the second part. */
  const Offset: int := 10000000000000

  // ----- integer division as the processor does it -----

  /** `/` on `isize`: the quotient rounded toward zero. */
  function Quot(a: int, d: int): int
    requires d != 0
  {
    var q := Abs(a) / Abs(d);
    if (a < 0) == (d < 0) then q else -q
  }

  /** `%` on `isize`: what is left after the rounded-toward-zero quotient. */
  function Rem(a: int, d: int): int
    requires d != 0
  {
    a - d * Quot(a, d)
  }

  /** `q * d` divided by `d` leaves `q` and nothing over. */
  lemma ExactQuot(q: int, d: int)
    requires d != 0
    ensures Quot(q * d, d) == q && Rem(q * d, d) == 0
  {
    var a := q * d;
    assert Abs(a) == Abs(q) * Abs(d) by {
      if q < 0 && d < 0 {
        assert a == (-q) * (-d);
      } else if q < 0 {
        assert -a == (-q) * d;
      } else if d < 0 {
        assert -a == q * (-d);
      }
    }
    DivMulExact(Abs(q), Abs(d));
  }

  /** The remainder is zero exactly when `d` divides `a`, and then the
      quotient is the exact one. */
  lemma RemZero(a: int, d: int)
    requires d != 0
    ensures Rem(a, d) == 0 <==> exists q :: a == q * d
    ensures Rem(a, d) == 0 ==> a == Quot(a, d) * d
  {
    if exists q :: a == q * d {
      var q :| a == q * d;
      ExactQuot(q, d);
    }
    if Rem(a, d) == 0 {
      assert a == Quot(a, d) * d;
    }
  }

  // ----- reading the machines -----

  /** `isize_from_bytes`: place-value parsing with a six-entry power
      table, so a longer field would index past the table and panic. */
  function IsizeFromBytes(bs: seq<char>): (n: int)
    requires |bs| <= 6
    ensures Decimal.IsDecimalText(bs) ==> n == Decimal.Parse(bs) < Decimal.Pow10(6)
  {
    if Decimal.IsDecimalText(bs) then Decimal.PlaceValueWithin(bs, 6); Decimal.PlaceValue(bs)
    else Decimal.PlaceValue(bs)
  }

  /** Splitting on `+` or `=` is splitting on `+` once every `=` reads
      as `+`. */
  function Unify(s: seq<char>): (r: seq<char>)
    ensures |r| == |s| && forall k :: 0 <= k < |s| ==> r[k] == if s[k] == '=' then '+' else s[k]
  {
    seq(|s|, k requires 0 <= k < |s| => if s[k] == '=' then '+' else s[k])
  }

  /** The number after the first `+` or `=` of one half of a line: the
      second piece of `split(|&b| b == b'+' || b == b'=')`. `None` where
      there is no second piece or it is longer than the power table. */
  function Field(half: seq<char>): (r: Option<int>)
    ensures r.Some? <==> var p := Text.Split(Unify(half), '+'); |p| >= 2 && |p[1]| <= 6
  {
    var pieces := Text.Split(Unify(half), '+');
    if |pieces| < 2 || |pieces[1]| > 6 then None else Some(IsizeFromBytes(pieces[1]))
  }

  /** `pair_from_bytes`: the numbers of the two comma-separated halves. */
  function PairFromBytes(line: seq<char>): (r: Option<(int, int)>)
  {
    var halves := Text.Split(line, ',');
    if |halves| < 2 then None
    else
      match (Field(halves[0]), Field(halves[1]))
      case (Some(x), Some(y)) => Some((x, y))
      case _ => None
  }

  /** Text free of the separators `pair_from_bytes` looks for. */
  predicate Plain(s: seq<char>)
  {
    '+' !in s && '=' !in s && ',' !in s
  }

  /** A field written as a label, a `+` or `=`, and a number of at most six
      digits reads back as that number. */
  lemma FieldRoundTrip(name: seq<char>, op: char, x: nat)
    requires Plain(name) && (op == '+' || op == '=') && x < Decimal.Pow10(6)
    ensures Field(name + [op] + Decimal.DecimalString(x)) == Some(x)
  {
    var dx := Decimal.DecimalString(x);
    FieldPieces(name, op, dx);
    Decimal.DigitsWithin(x, 6);
    Decimal.ParseDecimalString(x);
  }

  lemma FieldPieces(name: seq<char>, op: char, dx: seq<char>)
    requires Plain(name) && (op == '+' || op == '=') && Decimal.IsDecimalText(dx)
    ensures Text.Split(Unify(name + [op] + dx), '+') == [name, dx]
  {
    assert Unify(name + [op] + dx) == name + ['+'] + dx;
    assert Text.Join([name, dx], '+') == name + ['+'] + dx by {
      assert [name, dx][..1] == [name];
    }
    assert '+' !in dx;
    Text.SplitJoin([name, dx], '+');
  }

  /** A whole line `<name> X+<x>, Y+<y>` (or with `=`) reads back as the
      pair. */
  lemma PairRoundTrip(left: seq<char>, right: seq<char>, op: char, x: nat, y: nat)
    requires Plain(left) && Plain(right) && (op == '+' || op == '=')
    requires x < Decimal.Pow10(6) && y < Decimal.Pow10(6)
    ensures PairFromBytes(left + [op] + Decimal.DecimalString(x) + [','] + right + [op] + Decimal.DecimalString(y)) == Some((x, y))
  {
    var fx := left + [op] + Decimal.DecimalString(x);
    var fy := right + [op] + Decimal.DecimalString(y);
    assert fx + [','] + fy == left + [op] + Decimal.DecimalString(x) + [','] + right + [op] + Decimal.DecimalString(y);
    assert ',' !in fx && ',' !in fy;
    assert Text.Join([fx, fy], ',') == fx + [','] + fy by {
      assert [fx, fy][..1] == [fx];
    }
    Text.SplitJoin([fx, fy], ',');
    FieldRoundTrip(left, op, x);
    FieldRoundTrip(right, op, y);
  }

  /** One machine: what buttons A and B move the claw by, and where the
      prize lies. */
  datatype Machine = Machine(a: Vec, b: Vec, prize: Vec)

  datatype Vec = Vec(x: int, y: int)

  /** The machines of `solve`'s loop: three lines per machine, then one
      line skipped; the loop ends when nothing follows a machine or the
      line after the skipped one. `None` where a line is missing or
      `pair_from_bytes` panics. */
  function Machines(lines: seq<seq<char>>): (r: Option<seq<Machine>>)
    decreases |lines|
  {
    if |lines| == 0 then Some([])
    else if |lines| < 3 then None
    else
      var m := MachineOf(lines[0], lines[1], lines[2]);
      if m.None? then None
      else if |lines| == 3 then Some([m.value])
      else
        var rest := Machines(lines[4..]);
        if rest.None? then None else Some([m.value] + rest.value)
  }

  /** The buttons and the prize from their three lines. */
  function MachineOf(a: seq<char>, b: seq<char>, p: seq<char>): Option<Machine>
  {
    var pa, pb, pp := PairFromBytes(a), PairFromBytes(b), PairFromBytes(p);
    if pa.Some? && pb.Some? && pp.Some? then
      Some(Machine(Vec(pa.value.0, pa.value.1), Vec(pb.value.0, pb.value.1), Vec(pp.value.0, pp.value.1)))
    else None
  }

  // ----- Cramer's rule -----

  /** Pressing A `i` times and B `j` times lands on the (shifted) prize. */
  predicate Wins(m: Machine, offset: int, i: int, j: int)
  {
    i * m.a.x + j * m.b.x == m.prize.x + offset && i * m.a.y + j * m.b.y == m.prize.y + offset
  }

  function Det(m: Machine): int
  {
    m.a.x * m.b.y - m.a.y * m.b.x
  }

  function Alpha(m: Machine, offset: int): int
  {
    m.b.y * (m.prize.x + offset) - m.b.x * (m.prize.y + offset)
  }

  function Beta(m: Machine, offset: int): int
  {
    m.a.x * (m.prize.y + offset) - m.a.y * (m.prize.x + offset)
  }

  /** The tokens one machine adds to `solve`'s sum: three per A press and
      one per B press when Cramer's quotients are exact and not negative,
      else nothing. `None` where `alpha % det` panics on a zero `det`. */
  function Tokens(m: Machine, offset: int): (r: Option<nat>)
    ensures r.Some? <==> Det(m) != 0
  {
    var det := Det(m);
    if det == 0 then None
    else
      var alpha, beta := Alpha(m, offset), Beta(m, offset);
      if Rem(alpha, det) == 0 && Rem(beta, det) == 0 then
        var i, j := Quot(alpha, det), Quot(beta, det);
        if i >= 0 && j >= 0 then Some(i * CostA + j * CostB) else Some(0)
      else Some(0)
  }

  /** Exact quotients solve the two equations. */
  lemma CramerSound(m: Machine, offset: int)
    requires Det(m) != 0 && Rem(Alpha(m, offset), Det(m)) == 0 && Rem(Beta(m, offset), Det(m)) == 0
    ensures Wins(m, offset, Quot(Alpha(m, offset), Det(m)), Quot(Beta(m, offset), Det(m)))
  {
    var det, alpha, beta := Det(m), Alpha(m, offset), Beta(m, offset);
    var i, j := Quot(alpha, det), Quot(beta, det);
    RemZero(alpha, det);
    RemZero(beta, det);
    var px, py := m.prize.x + offset, m.prize.y + offset;
    Eliminate(m.a.x, m.b.x, m.a.y, m.b.y, px, py, i, j, det);
    assert i * det == alpha && j * det == beta;
    assert i * -det == -alpha && j * -det == -beta;
    Eliminate(m.a.y, m.b.y, m.a.x, m.b.x, py, px, i, j, -det);
    MulCancel(i * m.a.x + j * m.b.x, px, det);
    MulCancel(i * m.a.y + j * m.b.y, py, -det);
  }

  /** The algebra of Cramer's rule for one equation: with `i * det` and
      `j * det` the two numerators, `(i * u + j * v) * det == p * det`. */
  lemma Eliminate(u: int, v: int, u': int, v': int, p: int, p': int, i: int, j: int, det: int)
    requires det == u * v' - u' * v
    requires i * det == v' * p - v * p' && j * det == u * p' - u' * p
    ensures (i * u + j * v) * det == p * det
  {
    calc {
      (i * u + j * v) * det;
      u * (i * det) + v * (j * det);
      u * (v' * p - v * p') + v * (u * p' - u' * p);
      p * (u * v' - u' * v);
    }
  }

  /** A non-zero factor cancels. */
  lemma MulCancel(a: int, b: int, d: int)
    requires d != 0 && a * d == b * d
    ensures a == b
  {
    assert (a - b) * d == 0;
  }

  /** With a non-zero determinant the solution is unique: any winning pair
      is Cramer's, and its quotients are exact. */
  lemma CramerComplete(m: Machine, offset: int, i: int, j: int)
    requires Det(m) != 0 && Wins(m, offset, i, j)
    ensures Rem(Alpha(m, offset), Det(m)) == 0 && Quot(Alpha(m, offset), Det(m)) == i
    ensures Rem(Beta(m, offset), Det(m)) == 0 && Quot(Beta(m, offset), Det(m)) == j
  {
    var px, py := m.prize.x + offset, m.prize.y + offset;
    assert Alpha(m, offset) == i * Det(m) by {
      assert Alpha(m, offset) == m.b.y * (i * m.a.x + j * m.b.x) - m.b.x * (i * m.a.y + j * m.b.y);
    }
    assert Beta(m, offset) == j * Det(m) by {
      assert Beta(m, offset) == m.a.x * (i * m.a.y + j * m.b.y) - m.a.y * (i * m.a.x + j * m.b.x);
    }
    ExactQuot(i, Det(m));
    ExactQuot(j, Det(m));
  }

  /** A machine with a winning pair of non-negative press counts pays for
      exactly those presses. */
  lemma TokensWin(m: Machine, offset: int, i: int, j: int)
    requires Det(m) != 0 && Wins(m, offset, i, j) && i >= 0 && j >= 0
    ensures Tokens(m, offset) == Some(CostA * i + CostB * j)
  {
    CramerComplete(m, offset, i, j);
  }

  /** A machine no non-negative presses can win adds nothing. */
  lemma TokensNoWin(m: Machine, offset: int)
    requires Det(m) != 0
    requires forall i, j :: i >= 0 && j >= 0 ==> !Wins(m, offset, i, j)
    ensures Tokens(m, offset) == Some(0)
  {
    var det, alpha, beta := Det(m), Alpha(m, offset), Beta(m, offset);
    if Rem(alpha, det) == 0 && Rem(beta, det) == 0 {
      CramerSound(m, offset);
    }
  }

  /** The fewest tokens that win the prize, or nothing when no presses
      can: with a non-zero determinant there is at most one way to win. */
  ghost function Prize(m: Machine, offset: int): nat
    requires Det(m) != 0
  {
    if exists i, j :: i >= 0 && j >= 0 && Wins(m, offset, i, j) then
      var i, j :| i >= 0 && j >= 0 && Wins(m, offset, i, j);
      CostA * i + CostB * j
    else 0
  }

  /** `solve`'s per-machine arithmetic pays exactly the prize's price. */
  lemma TokensArePrize(m: Machine, offset: int)
    requires Det(m) != 0
    ensures Tokens(m, offset) == Some(Prize(m, offset))
  {
    if exists i, j :: i >= 0 && j >= 0 && Wins(m, offset, i, j) {
      var i, j :| i >= 0 && j >= 0 && Wins(m, offset, i, j) && Prize(m, offset) == CostA * i + CostB * j;
      TokensWin(m, offset, i, j);
    } else {
      TokensNoWin(m, offset);
    }
  }

  // ----- the answers -----

  /** The sum of the machines' tokens; `None` if any machine panics. */
  function TotalTokens(ms: seq<Machine>, offset: int): (r: Option<nat>)
    ensures r.Some? <==> forall k :: 0 <= k < |ms| ==> Det(ms[k]) != 0
  {
    if |ms| == 0 then Some(0)
    else
      var t, rest := Tokens(ms[0], offset), TotalTokens(ms[1..], offset);
      if t.None? then None
      else if rest.None? then
        assert forall k :: 1 <= k < |ms| ==> ms[k] == ms[1..][k - 1];
        None
      else Some(t.value + rest.value)
  }

  /** The prizes of all machines, added up. */
  ghost function PrizeSum(ms: seq<Machine>, offset: int): nat
    requires forall k :: 0 <= k < |ms| ==> Det(ms[k]) != 0
  {
    if |ms| == 0 then 0 else Prize(ms[0], offset) + PrizeSum(ms[1..], offset)
  }

  lemma {:induction false} TotalIsPrizeSum(ms: seq<Machine>, offset: int)
    requires forall k :: 0 <= k < |ms| ==> Det(ms[k]) != 0
    ensures TotalTokens(ms, offset) == Some(PrizeSum(ms, offset))
  {
    if |ms| > 0 {
      TokensArePrize(ms[0], offset);
      TotalIsPrizeSum(ms[1..], offset);
    }
  }

  /** `solve`: every machine's prize paid at the fewest tokens, with the
      prizes moved by `offset`. `None` where reading panics or a machine's
      determinant is zero. */
  function Solve(input: seq<char>, offset: int): (r: Option<nat>)
    ensures var ms := Machines(Text.Split(input, '\n'));
      r.Some? <==> ms.Some? && forall k :: 0 <= k < |ms.value| ==> Det(ms.value[k]) != 0
    ensures r.Some? ==> r.value == PrizeSum(Machines(Text.Split(input, '\n')).value, offset)
  {
    var ms := Machines(Text.Split(input, '\n'));
    if ms.None? then None
    else
      var r := TotalTokens(ms.value, offset);
      if r.Some? then TotalIsPrizeSum(ms.value, offset); r else r
  }

  /** `part1`: the prizes where the input puts them. */
  function Part1(input: seq<char>): (r: Option<nat>)
    ensures var ms := Machines(Text.Split(input, '\n'));
      r.Some? <==> ms.Some? && forall k :: 0 <= k < |ms.value| ==> Det(ms.value[k]) != 0
    ensures r.Some? ==> r.value == PrizeSum(Machines(Text.Split(input, '\n')).value, 0)
  {
    Solve(input, 0)
  }

  /** `part2`: every prize ten trillion further along both axes. */
  function Part2(input: seq<char>): (r: Option<nat>)
    ensures var ms := Machines(Text.Split(input, '\n'));
      r.Some? <==> ms.Some? && forall k :: 0 <= k < |ms.value| ==> Det(ms.value[k]) != 0
    ensures r.Some? ==> r.value == PrizeSum(Machines(Text.Split(input, '\n')).value, Offset)
  {
    Solve(input, Offset)
  }
}
