/** Day 7: calibration equations. A line holds a target and a list of
    operands; it is solvable when some choice of operators, applied left
    to right, turns the operands into the target. The search runs
    backwards from the target, undoing the last operator each time. */
module Day07 {
  import opened Common
  import Decimal
  import Text

  datatype Op = Add | Mul | Cat

  /** Digit count of n as `to_string` prints it. */
  function Width(n: nat): nat
  {
    |Decimal.Digits(n)|
  }

  /** The forward meaning of an operator, as the puzzle defines it:
      `Cat` writes the digits of `v` after those of `acc`. */
  function Apply(op: Op, acc: nat, v: nat): nat
  {
    match op
    case Add => acc + v
    case Mul => acc * v
    case Cat => acc * Decimal.Pow10(Width(v)) + v
  }

  /** `Operation::unapply`: the accumulator that `op` with right operand
      `left` would have turned into `right`, when there is one. `Mul` needs
      a non-zero operand, since `right % 0` panics. */
  function Unapply(op: Op, left: nat, right: nat): (r: Option<nat>)
    requires op == Mul ==> left > 0
  {
    match op
    case Add => if right >= left then Some(right - left) else None
    case Mul => if right % left == 0 then Some(right / left) else None
    case Cat =>
      var l, r := Decimal.Digits(left), Decimal.Digits(right);
      if |r| > |l| && r[|r| - |l|..] == l then Some(Decimal.Value(r[..|r| - |l|])) else None
  }

  /** Undoing gives an accumulator that the operator maps back to `right`;
      for `Cat` it is positive, its digits followed by those of `left`
      being exactly the digits of `right`. */
  lemma UnapplyInverse(op: Op, left: nat, right: nat)
    requires op == Mul ==> left > 0
    requires Unapply(op, left, right).Some?
    ensures Apply(op, Unapply(op, left, right).value, left) == right
    ensures op == Cat ==> Unapply(op, left, right).value >= 1
  {
    if op == Mul {
      UnapplyMul(left, right);
    } else if op == Cat {
      UnapplyCat(left, right);
    }
  }

  lemma UnapplyMul(left: nat, right: nat)
    requires left > 0 && right % left == 0
    ensures (right / left) * left == right
  {
    assert right == (right / left) * left + right % left;
  }

  lemma UnapplyCat(left: nat, right: nat)
    requires Unapply(Cat, left, right).Some?
    ensures Apply(Cat, Unapply(Cat, left, right).value, left) == right
    ensures Unapply(Cat, left, right).value >= 1
  {
    var l, r := Decimal.Digits(left), Decimal.Digits(right);
    var k := |r| - |l|;
    assert r == r[..k] + l;
    Decimal.ValueOfDigits(right);
    Decimal.ValueOfDigits(left);
    CatParts(r[..k], l, left, right);
    PrefixPositive(r, k);
  }

  /** Digits split into a prefix and a tail: the tail's digits are the
      low places. */
  lemma CatParts(prefix: seq<nat>, l: seq<nat>, left: nat, right: nat)
    requires Decimal.Value(prefix + l) == right && Decimal.Value(l) == left
    ensures right == Decimal.Value(prefix) * Decimal.Pow10(|l|) + left
  {
    Decimal.ValueConcat(prefix, l);
  }

  /** A proper prefix of a number's digits, which cannot start with zero,
      has a positive value. */
  lemma PrefixPositive(r: seq<nat>, k: nat)
    requires Decimal.IsCanonical(r) && 1 <= k < |r|
    ensures Decimal.Value(r[..k]) >= 1
  {
    var prefix := r[..k];
    assert Decimal.IsCanonical(prefix);
    if k >= 2 {
      Decimal.ValueLowerBound(prefix);
    } else {
      assert prefix == [r[0]];
      assert Decimal.Value(prefix) == r[0] by {
        assert prefix[..0] == [];
      }
    }
  }

  /** Conversely, undoing recovers any positive accumulator: the three
      operators are injective in their left operand. */
  lemma ApplyUnapply(op: Op, acc: nat, v: nat)
    requires acc >= 1 && v >= 1
    ensures Unapply(op, v, Apply(op, acc, v)) == Some(acc)
  {
    match op
    case Add =>
    case Mul => ApplyUnapplyMul(acc, v);
    case Cat => ApplyUnapplyCat(acc, v);
  }

  lemma ApplyUnapplyMul(acc: nat, v: nat)
    requires v >= 1
    ensures (acc * v) % v == 0 && (acc * v) / v == acc
  {
    DivMulExact(acc, v);
    var right := acc * v;
    assert right == (right / v) * v + right % v;
  }

  lemma ApplyUnapplyCat(acc: nat, v: nat)
    requires acc >= 1
    ensures Unapply(Cat, v, Apply(Cat, acc, v)) == Some(acc)
  {
    var right := Apply(Cat, acc, v);
    var pa, l := Decimal.Digits(acc), Decimal.Digits(v);
    Decimal.ValueConcat(pa, l);
    Decimal.ValueOfDigits(acc);
    Decimal.ValueOfDigits(v);
    assert Decimal.IsCanonical(pa + l) by {
      DigitsHeadPositive(acc);
    }
    Decimal.DigitsOfValue(pa + l);
    assert Decimal.Digits(right) == pa + l;
    assert (pa + l)[..|pa|] == pa;
    assert (pa + l)[|pa|..] == l;
  }

  lemma DigitsHeadPositive(n: nat)
    requires n >= 1
    ensures Decimal.Digits(n)[0] != 0
  {
    if n >= 10 {
      DigitsHeadPositive(n / 10);
      assert Decimal.Digits(n)[0] == Decimal.Digits(n / 10)[0];
    }
  }

  /** The operands evaluated left to right with the operators `choice`. */
  function EvalLeft(values: seq<nat>, choice: seq<Op>): nat
    requires |values| >= 1 && |choice| == |values| - 1
  {
    if |values| == 1 then values[0]
    else
      Apply(choice[|choice| - 1], EvalLeft(values[..|values| - 1], choice[..|choice| - 1]), values[|values| - 1])
  }

  predicate Positive(values: seq<nat>)
  {
    forall i :: 0 <= i < |values| ==> values[i] >= 1
  }

  /** With positive operands every intermediate result is positive. */
  lemma {:induction false} EvalLeftPositive(values: seq<nat>, choice: seq<Op>)
    requires |values| >= 1 && |choice| == |values| - 1 && Positive(values)
    ensures EvalLeft(values, choice) >= 1
    decreases |values|
  {
    if |values| > 1 {
      EvalLeftPositive(values[..|values| - 1], choice[..|choice| - 1]);
      var acc := EvalLeft(values[..|values| - 1], choice[..|choice| - 1]);
      var v := values[|values| - 1];
      assert acc * v >= 1 by {
        MulAtLeast(acc, v);
      }
    }
  }

  /** Some left-to-right choice among `ops` gives the target. */
  ghost predicate Solvable(ops: seq<Op>, target: nat, values: seq<nat>)
  {
    |values| >= 1 &&
    exists choice :: |choice| == |values| - 1 && (forall i :: 0 <= i < |choice| ==> choice[i] in ops) &&
      EvalLeft(values, choice) == target
  }

  /** `dfs` on the state (target, values): done when the one operand left
      is the target, otherwise any operator that can be undone on the last
      operand and leads to a solvable smaller state. */
  function Dfs(ops: seq<Op>, target: nat, values: seq<nat>): (b: bool)
    requires Positive(values)
    decreases |values|, |ops| + 1
  {
    (|values| == 1 && values[0] == target) || DfsFrom(ops, 0, target, values)
  }

  /** The `any` over `ops[k..]`, in order. */
  function DfsFrom(ops: seq<Op>, k: nat, target: nat, values: seq<nat>): (b: bool)
    requires Positive(values) && k <= |ops|
    ensures b <==> |values| >= 1 && exists i :: (k <= i < |ops| &&
      Unapply(ops[i], values[|values| - 1], target).Some? &&
      Dfs(ops, Unapply(ops[i], values[|values| - 1], target).value, values[..|values| - 1]))
    decreases |values|, |ops| - k
  {
    if k == |ops| || |values| == 0 then false
    else
      var v := values[|values| - 1];
      var next := Unapply(ops[k], v, target);
      (next.Some? && Dfs(ops, next.value, values[..|values| - 1])) || DfsFrom(ops, k + 1, target, values)
  }

  /** `dfs` says yes exactly when the equation is solvable with `ops`. */
  lemma {:induction false} DfsCorrect(ops: seq<Op>, target: nat, values: seq<nat>)
    requires Positive(values)
    ensures Dfs(ops, target, values) <==> Solvable(ops, target, values)
    decreases |values|
  {
    if Dfs(ops, target, values) {
      DfsSound(ops, target, values);
    }
    if Solvable(ops, target, values) {
      DfsComplete(ops, target, values);
    }
  }

  lemma EvalSnoc(values: seq<nat>, c: seq<Op>, op: Op)
    requires |values| >= 2 && |c| == |values| - 2
    ensures EvalLeft(values, c + [op]) == Apply(op, EvalLeft(values[..|values| - 1], c), values[|values| - 1])
  {
    assert (c + [op])[..|c|] == c;
  }

  lemma {:induction false} DfsSound(ops: seq<Op>, target: nat, values: seq<nat>)
    requires Positive(values) && Dfs(ops, target, values)
    ensures Solvable(ops, target, values)
    decreases |values|
  {
    if |values| == 1 && values[0] == target {
      assert EvalLeft(values, []) == target;
    } else {
      var i, acc := DfsLast(ops, target, values);
      var init := values[..|values| - 1];
      DfsSound(ops, acc, init);
      var c :| |c| == |init| - 1 && (forall j :: 0 <= j < |c| ==> c[j] in ops) && EvalLeft(init, c) == acc;
      UnapplyInverse(ops[i], values[|values| - 1], target);
      ExtendChoice(ops, values, c, ops[i], acc, target);
    }
  }

  /** A successful search that is not done at once undoes some operator
      on the last of at least two operands and succeeds on the rest. */
  lemma DfsLast(ops: seq<Op>, target: nat, values: seq<nat>) returns (i: nat, acc: nat)
    requires Positive(values) && Dfs(ops, target, values)
    requires !(|values| == 1 && values[0] == target)
    ensures |values| >= 2 && i < |ops|
    ensures Unapply(ops[i], values[|values| - 1], target) == Some(acc)
    ensures Dfs(ops, acc, values[..|values| - 1])
  {
    var v := values[|values| - 1];
    i :| 0 <= i < |ops| && Unapply(ops[i], v, target).Some? && Dfs(ops, Unapply(ops[i], v, target).value, values[..|values| - 1]);
    acc := Unapply(ops[i], v, target).value;
  }

  /** A choice for all operands but the last, followed by an operator that
      takes its result to the target, solves the equation. */
  lemma ExtendChoice(ops: seq<Op>, values: seq<nat>, c: seq<Op>, op: Op, acc: nat, target: nat)
    requires |values| >= 2 && |c| == |values| - 2 && op in ops
    requires forall j :: 0 <= j < |c| ==> c[j] in ops
    requires EvalLeft(values[..|values| - 1], c) == acc && Apply(op, acc, values[|values| - 1]) == target
    ensures Solvable(ops, target, values)
  {
    var choice := c + [op];
    EvalSnoc(values, c, op);
    assert forall j :: 0 <= j < |choice| ==> choice[j] in ops by {
      assert forall j :: 0 <= j < |c| ==> choice[j] == c[j];
    }
    assert |choice| == |values| - 1 && EvalLeft(values, choice) == target;
  }

  lemma {:induction false} DfsComplete(ops: seq<Op>, target: nat, values: seq<nat>)
    requires Positive(values) && Solvable(ops, target, values)
    ensures Dfs(ops, target, values)
    decreases |values|
  {
    var choice :| |choice| == |values| - 1 && (forall i :: 0 <= i < |choice| ==> choice[i] in ops) &&
      EvalLeft(values, choice) == target;
    if |values| > 1 {
      var n := |values|;
      var v := values[n - 1];
      var init := values[..n - 1];
      var c := choice[..|choice| - 1];
      var op := choice[|choice| - 1];
      var acc := EvalLeft(init, c);
      EvalLeftPositive(init, c);
      ApplyUnapply(op, acc, v);
      assert Solvable(ops, acc, init) by {
        assert forall j :: 0 <= j < |c| ==> c[j] == choice[j];
      }
      DfsComplete(ops, acc, init);
      var i :| 0 <= i < |ops| && ops[i] == op;
      assert Unapply(ops[i], v, target) == Some(acc);
    }
  }

  // ----- parsing and the two parts -----

  /** Index of the first ": " in `line`, or |line| when there is none. */
  function FindColon(line: seq<char>, i: nat): (k: nat)
    requires i <= |line|
    ensures i <= k <= |line|
    ensures k < |line| ==> k + 1 < |line| && line[k] == ':' && line[k + 1] == ' '
    ensures forall j :: i <= j < k && j + 1 < |line| ==> !(line[j] == ':' && line[j + 1] == ' ')
    decreases |line| - i
  {
    if i + 1 >= |line| then |line|
    else if line[i] == ':' && line[i + 1] == ' ' then i
    else FindColon(line, i + 1)
  }

  /** All fields parsed, `None` if any is not a number. */
  function ParseAll(fields: seq<seq<char>>): (r: Option<seq<nat>>)
    ensures r.Some? ==> |r.value| == |fields|
    ensures r.Some? ==> forall i :: 0 <= i < |fields| ==> Decimal.ParseNat(fields[i]) == Some(r.value[i])
  {
    if |fields| == 0 then Some([])
    else
      match (ParseAll(fields[..|fields| - 1]), Decimal.ParseNat(fields[|fields| - 1]))
      case (Some(init), Some(v)) => Some(init + [v])
      case _ => None
  }

  /** `parse_line`: the target before the first ": " and the space-separated
      operands after it, up to a second ": " if any. `None` where `unwrap`
      panics. */
  function ParseLine(line: seq<char>): (r: Option<(nat, seq<nat>)>)
    ensures r.Some? ==> |r.value.1| >= 1
  {
    var k := FindColon(line, 0);
    if k == |line| then None
    else
      var rest := line[k + 2..];
      var right := rest[..FindColon(rest, 0)];
      match (Decimal.ParseNat(line[..k]), ParseAll(Text.Split(right, ' ')))
      case (Some(t), Some(vs)) => Some((t, vs))
      case _ => None
  }

  /** An equation written out reads back as itself. */
  lemma ParseLineRoundTrip(target: nat, v: nat)
    ensures ParseLine(Decimal.DecimalString(target) + ": " + Decimal.DecimalString(v)) == Some((target, [v]))
  {
    Decimal.ParseNatDecimalString(target);
    Decimal.ParseNatDecimalString(v);
    ParseLineOf(Decimal.DecimalString(target), Decimal.DecimalString(v));
  }

  lemma ParseLineOf(dt: seq<char>, dv: seq<char>)
    requires Decimal.ParseNat(dt).Some? && Decimal.ParseNat(dv).Some?
    ensures ParseLine(dt + ": " + dv) == Some((Decimal.ParseNat(dt).value, [Decimal.ParseNat(dv).value]))
  {
    NumberField(dt);
    NumberField(dv);
    ColonSplit(dt, dv);
    assert dv[..|dv|] == dv;
    SplitField(dv);
    ParseAllSingle(dv);
  }

  /** With no colon on either side, the first ": " is the one joining
      the two sides. */
  lemma ColonSplit(dt: seq<char>, dv: seq<char>)
    requires ':' !in dt && ':' !in dv
    ensures var line := dt + ": " + dv;
      FindColon(line, 0) == |dt| && line[..|dt|] == dt && line[|dt| + 2..] == dv && FindColon(dv, 0) == |dv|
  {
    var line := dt + ": " + dv;
    assert forall j :: 0 <= j < |dt| ==> line[j] == dt[j];
    assert line[|dt|] == ':' && line[|dt| + 1] == ' ';
    assert line[..|dt|] == dt;
    assert line[|dt| + 2..] == dv;
  }

  /** A field that reads as a number holds neither a colon nor a space. */
  lemma NumberField(f: seq<char>)
    requires Decimal.ParseNat(f).Some?
    ensures ':' !in f && ' ' !in f
  {
    if f[0] == '+' {
      assert forall j :: 1 <= j < |f| ==> f[j] == f[1..][j - 1];
    }
  }

  lemma SplitField(f: seq<char>)
    requires ' ' !in f
    ensures Text.Split(f, ' ') == [f]
  {
    Text.SplitNoSeparator(f, ' ');
  }

  lemma ParseAllSingle(f: seq<char>)
    requires Decimal.ParseNat(f).Some?
    ensures ParseAll([f]) == Some([Decimal.ParseNat(f).value])
  {
    assert [f][..0] == [];
    assert ParseAll([f][..0]) == Some([]);
    assert [] + [Decimal.ParseNat(f).value] == [Decimal.ParseNat(f).value];
  }

  // ----- the search as the source runs it -----

  /** `dfs` as written, on any operands: `None` where it panics, which is
      when it tries to undo a multiplication by a zero operand (`right % 0`)
      before finding a solution. The operators are tried in order and the
      first success stops the search. */
  function Search(ops: seq<Op>, target: nat, values: seq<nat>): Option<bool>
    decreases |values|, |ops| + 1
  {
    if |values| == 1 && values[0] == target then Some(true) else SearchFrom(ops, 0, target, values)
  }

  function SearchFrom(ops: seq<Op>, k: nat, target: nat, values: seq<nat>): Option<bool>
    requires k <= |ops|
    decreases |values|, |ops| - k
  {
    if k == |ops| || |values| == 0 then Some(false)
    else
      var v := values[|values| - 1];
      if ops[k] == Mul && v == 0 then None
      else
        match Unapply(ops[k], v, target)
        case None => SearchFrom(ops, k + 1, target, values)
        case Some(acc) =>
          match Search(ops, acc, values[..|values| - 1])
          case None => None
          case Some(true) => Some(true)
          case Some(false) => SearchFrom(ops, k + 1, target, values)
  }

  /** On positive operands the search never panics and answers as `Dfs`,
      hence (`DfsCorrect`) exactly when the equation is solvable. */
  lemma {:induction false} SearchIsDfs(ops: seq<Op>, target: nat, values: seq<nat>)
    requires Positive(values)
    ensures Search(ops, target, values) == Some(Dfs(ops, target, values))
    decreases |values|, |ops| + 1
  {
    if !(|values| == 1 && values[0] == target) {
      SearchFromIsDfsFrom(ops, 0, target, values);
    }
  }

  lemma {:induction false} SearchFromIsDfsFrom(ops: seq<Op>, k: nat, target: nat, values: seq<nat>)
    requires Positive(values) && k <= |ops|
    ensures SearchFrom(ops, k, target, values) == Some(DfsFrom(ops, k, target, values))
    decreases |values|, |ops| - k
  {
    if k < |ops| && |values| > 0 {
      var v := values[|values| - 1];
      var init := values[..|values| - 1];
      assert Positive(init) by {
        assert forall j :: 0 <= j < |init| ==> init[j] == values[j];
      }
      var next := Unapply(ops[k], v, target);
      if next.Some? {
        SearchIsDfs(ops, next.value, init);
      }
      SearchFromIsDfsFrom(ops, k + 1, target, values);
    }
  }

  /** A zero operand need not stop the search: in `3: 0 3` undoing the
      addition of 3 leaves the single operand 0 equal to the target 0. */
  lemma ZeroOperandSolved()
    ensures Search([Add, Mul], 3, [0, 3]) == Some(true)
  {
    assert Unapply(Add, 3, 3) == Some(0);
    assert [0, 3][..1] == [0];
    assert Search([Add, Mul], 0, [0]) == Some(true);
  }

  /** But a search that reaches the undoing of a multiplication by zero
      panics: in `5: 2 0` undoing `+ 0` leads nowhere, and `% 0` follows. */
  lemma ZeroFactorPanics()
    ensures Search([Add, Mul], 5, [2, 0]).None?
  {
    assert [2, 0][..1] == [2];
    assert [2][..0] == [];
    assert Unapply(Add, 0, 5) == Some(5);
    assert Unapply(Add, 2, 5) == Some(3);
    assert Unapply(Mul, 2, 5) == None;
    assert Search([Add, Mul], 3, []) == Some(false);
    assert SearchFrom([Add, Mul], 1, 5, [2]) == Some(false);
    assert Search([Add, Mul], 5, [2]) == Some(false);
  }

  // ----- the totals -----

  /** A parsed line whose search does not panic. */
  predicate Runs(ops: seq<Op>, eq: Option<(nat, seq<nat>)>)
  {
    eq.Some? && Search(ops, eq.value.0, eq.value.1).Some?
  }

  /** The sum of the targets the search reaches, over the parsed lines;
      `None` where parsing or the search panics. */
  function Total(ops: seq<Op>, eqs: seq<Option<(nat, seq<nat>)>>): Option<nat>
  {
    if |eqs| == 0 then Some(0)
    else
      match Total(ops, eqs[..|eqs| - 1])
      case None => None
      case Some(total) =>
        var last := eqs[|eqs| - 1];
        if !Runs(ops, last) then None
        else Some(total + if Search(ops, last.value.0, last.value.1).value then last.value.0 else 0)
  }

  /** A total exists exactly when every line parses and its search does
      not panic. */
  lemma {:induction false} TotalSome(ops: seq<Op>, eqs: seq<Option<(nat, seq<nat>)>>)
    ensures Total(ops, eqs).Some? <==> forall i :: 0 <= i < |eqs| ==> Runs(ops, eqs[i])
    decreases |eqs|
  {
    if |eqs| > 0 {
      var init := eqs[..|eqs| - 1];
      TotalSome(ops, init);
      assert forall i :: 0 <= i < |init| ==> init[i] == eqs[i];
    }
  }

  /** A parsed line with positive operands. */
  predicate Usable(eq: Option<(nat, seq<nat>)>)
  {
    eq.Some? && Positive(eq.value.1)
  }

  /** The reference answer: the sum of the targets of the solvable lines. */
  ghost function SolvableSum(ops: seq<Op>, eqs: seq<Option<(nat, seq<nat>)>>): nat
    requires forall i :: 0 <= i < |eqs| ==> Usable(eqs[i])
  {
    if |eqs| == 0 then 0
    else
      var n := |eqs| - 1;
      assert Usable(eqs[n]);
      SolvableSum(ops, eqs[..n]) + if Solvable(ops, eqs[n].value.0, eqs[n].value.1) then eqs[n].value.0 else 0
  }

  /** With positive operands the total is the sum of the targets of the
      solvable lines. */
  lemma {:induction false} TotalSolvable(ops: seq<Op>, eqs: seq<Option<(nat, seq<nat>)>>)
    requires forall i :: 0 <= i < |eqs| ==> Usable(eqs[i])
    ensures Total(ops, eqs) == Some(SolvableSum(ops, eqs))
    decreases |eqs|
  {
    if |eqs| > 0 {
      var n := |eqs| - 1;
      var (target, values) := eqs[n].value;
      TotalSolvable(ops, eqs[..n]);
      SearchIsDfs(ops, target, values);
      DfsCorrect(ops, target, values);
    }
  }

  /** Adding the concatenation operator can only make more equations
      solvable, so with positive operands the second total is at least the
      first. */
  lemma {:induction false} MoreOpsMore(eqs: seq<Option<(nat, seq<nat>)>>)
    requires forall i :: 0 <= i < |eqs| ==> Usable(eqs[i])
    ensures SolvableSum([Add, Mul], eqs) <= SolvableSum([Add, Mul, Cat], eqs)
    decreases |eqs|
  {
    if |eqs| > 0 {
      var n := |eqs| - 1;
      MoreOpsMore(eqs[..n]);
      var (target, values) := eqs[n].value;
      if Solvable([Add, Mul], target, values) {
        var choice :| |choice| == |values| - 1 && (forall i :: 0 <= i < |choice| ==> choice[i] in [Add, Mul]) &&
          EvalLeft(values, choice) == target;
        assert forall i :: 0 <= i < |choice| ==> choice[i] in [Add, Mul, Cat];
      }
    }
  }

  /** Every line of `input.lines()` parsed. */
  function ParseLines(input: seq<char>): seq<Option<(nat, seq<nat>)>>
  {
    var lines := Text.StrLines(input);
    seq(|lines|, i requires 0 <= i < |lines| => ParseLine(lines[i]))
  }

  /** `part1`: defined when every line parses and no search panics; with
      positive operands, the sum of the targets reachable with + and *. */
  function Part1(input: seq<char>): (r: Option<nat>)
    ensures r.Some? <==> forall i :: 0 <= i < |ParseLines(input)| ==> Runs([Add, Mul], ParseLines(input)[i])
    ensures (forall i :: 0 <= i < |ParseLines(input)| ==> Usable(ParseLines(input)[i])) ==>
      r == Some(SolvableSum([Add, Mul], ParseLines(input)))
  {
    var eqs := ParseLines(input);
    TotalSome([Add, Mul], eqs);
    if forall i :: 0 <= i < |eqs| ==> Usable(eqs[i]) then
      TotalSolvable([Add, Mul], eqs);
      Total([Add, Mul], eqs)
    else Total([Add, Mul], eqs)
  }

  /** `part2`: the same with concatenation as a third operator; with
      positive operands it is at least `part1`. */
  function Part2(input: seq<char>): (r: Option<nat>)
    ensures r.Some? <==> forall i :: 0 <= i < |ParseLines(input)| ==> Runs([Add, Mul, Cat], ParseLines(input)[i])
    ensures (forall i :: 0 <= i < |ParseLines(input)| ==> Usable(ParseLines(input)[i])) ==>
      r == Some(SolvableSum([Add, Mul, Cat], ParseLines(input))) && Part1(input).Some? && Part1(input).value <= r.value
  {
    var eqs := ParseLines(input);
    TotalSome([Add, Mul, Cat], eqs);
    if forall i :: 0 <= i < |eqs| ==> Usable(eqs[i]) then
      TotalSolvable([Add, Mul, Cat], eqs);
      MoreOpsMore(eqs);
      Total([Add, Mul, Cat], eqs)
    else Total([Add, Mul, Cat], eqs)
  }
}
