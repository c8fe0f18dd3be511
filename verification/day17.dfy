/** Day 17: a three-bit computer with registers a, b and c, eight
    opcodes, and an instruction pointer that moves two cells at a time.
    Part one runs a program and prints its outputs joined by commas; part
    two searches, three bits at a time from the last program value back,
    for the smallest starting a whose first outputs reproduce the program.
    Registers are unbounded naturals here: right shifts and exclusive or
    never make a value wider than their operands, so a 64-bit register
    cannot overflow and only a shift amount of 64 or more is out of range.
    Loops in the program are bounded by a fuel count. */
module Day17 {
  import opened Common
  import opened Bits
  import Decimal
  import Text

  /** A run that ended, panicked, or ran out of fuel. */
  datatype Run<T> = Ok(value: T) | Panicked | Exhausted

  /** `usize_from_bytes`: place-value parsing with a ten-entry power
      table, so a longer field would index past the table and panic. */
  function UsizeFromBytes(bs: seq<char>): (n: nat)
    requires |bs| <= 10
    ensures Decimal.IsDecimalText(bs) ==> n == Decimal.Parse(bs) < Decimal.Pow10(10)
  {
    if Decimal.IsDecimalText(bs) then
      Decimal.PlaceValueWithin(bs, 10);
      Decimal.PlaceValue(bs)
    else Decimal.PlaceValue(bs)
  }

  datatype Machine = Machine(a: nat, b: nat, c: nat, ip: nat)

  /** `combo`: operands 0 to 3 stand for themselves, 4, 5 and 6 for the
      registers; anything else panics. */
  function Combo(operand: nat, m: Machine): (r: Option<nat>)
    ensures r.Some? <==> operand < 7
    ensures operand <= 3 ==> r == Some(operand)
    ensures operand == 4 ==> r == Some(m.a)
    ensures operand == 5 ==> r == Some(m.b)
    ensures operand == 6 ==> r == Some(m.c)
  {
    if operand <= 3 then Some(operand)
    else if operand == 4 then Some(m.a)
    else if operand == 5 then Some(m.b)
    else if operand == 6 then Some(m.c)
    else None
  }

  /** `a >> k` on a 64-bit register: a in steps of 2^k, rounded down. A
      shift by 64 or more panics in a checked build. */
  function ShiftA(m: Machine, k: nat): (r: Option<nat>)
    ensures r.Some? <==> k < 64
    ensures r.Some? ==> r.value * Pow2(k) <= m.a < (r.value + 1) * Pow2(k)
    ensures r.Some? ==> r.value <= m.a
  {
    if k < 64 then
      FloorDiv(m.a, Pow2(k));
      Some(Shr(m.a, k))
    else None
  }

  lemma FloorDiv(x: nat, p: nat)
    requires p >= 1
    ensures (x / p) * p <= x < (x / p + 1) * p
  {
    assert x == (x / p) * p + x % p;
  }

  /** What one instruction does: the next machine and what it printed,
      or a panic. */
  datatype Effect = Continue(next: Machine, out: Option<nat>) | Fault

  /** Opcodes 0, 6 and 7 shift a by a combo operand. */
  predicate Shifts(op: nat)
  {
    op == 0 || op == 6 || op == 7
  }

  /** Opcodes 0, 2, 5, 6 and 7 read a combo operand. */
  predicate ReadsCombo(op: nat)
  {
    Shifts(op) || op == 2 || op == 5
  }

  /** One pass of the interpreter loop at `m.ip`: read the opcode and the
      operand after it (panicking past the end), then `adv`, `bxl`, `bst`,
      `jnz`, `bxc`, `out`, `bdv`, `cdv` for opcodes 0 to 7. */
  function Step(program: seq<nat>, m: Machine): (r: Effect)
    requires m.ip < |program|
    ensures r.Fault? <==>
      (m.ip + 1 >= |program| || program[m.ip] > 7 ||
       (ReadsCombo(program[m.ip]) && program[m.ip + 1] >= 7) ||
       (Shifts(program[m.ip]) && program[m.ip + 1] < 7 && Combo(program[m.ip + 1], m).value >= 64))
    ensures r.Continue? ==>
      if program[m.ip] == 3 && m.a != 0 then r.next.ip == program[m.ip + 1] else r.next.ip == m.ip + 2
    ensures r.Continue? ==> (r.out.Some? <==> program[m.ip] == 5)
    ensures r.Continue? && r.out.Some? ==> r.out.value < 8
    ensures r.Continue? && program[m.ip] == 2 ==> r.next.b < 8
    ensures r.Continue? ==> r.next.a <= m.a && (program[m.ip] != 0 ==> r.next.a == m.a)
    ensures r.Continue? && program[m.ip] !in {1, 2, 4, 6} ==> r.next.b == m.b
    ensures r.Continue? && program[m.ip] != 7 ==> r.next.c == m.c
  {
    if m.ip + 1 >= |program| then Fault
    else
      var op, operand := program[m.ip], program[m.ip + 1];
      var ip := m.ip + 2;
      if op == 1 then Continue(m.(b := Xor(m.b, operand), ip := ip), None)
      else if op == 3 then Continue(if m.a != 0 then m.(ip := operand) else m.(ip := ip), None)
      else if op == 4 then Continue(m.(b := Xor(m.b, m.c), ip := ip), None)
      else if op > 7 then Fault
      else
        match Combo(operand, m)
        case None => Fault
        case Some(k) =>
          if op == 2 then Continue(m.(b := k % 8, ip := ip), None)
          else if op == 5 then Continue(m.(ip := ip), Some(k % 8))
          else
            match ShiftA(m, k)
            case None => Fault
            case Some(s) =>
              if op == 0 then Continue(m.(a := s, ip := ip), None)
              else if op == 6 then Continue(m.(b := s, ip := ip), None)
              else Continue(m.(c := s, ip := ip), None)
  }

  /** The interpreter loop of `part1`: step until the instruction pointer leaves the
      program, collecting the outputs in order. */
  function Execute(program: seq<nat>, m: Machine, fuel: nat): (r: Run<seq<nat>>)
    ensures m.ip >= |program| ==> r == Ok([])
    ensures r.Ok? ==> forall k :: 0 <= k < |r.value| ==> r.value[k] < 8
    ensures r.Ok? && m.ip < |program| ==> Step(program, m).Continue?
    decreases fuel
  {
    if m.ip >= |program| then Ok([])
    else if fuel == 0 then Exhausted
    else
      match Step(program, m)
      case Fault => Panicked
      case Continue(next, out) =>
        match Execute(program, next, fuel - 1)
        case Ok(rest) =>
          if out.Some? then Ok([out.value] + rest) else Ok(rest)
        case Panicked => Panicked
        case Exhausted => Exhausted
  }

  /** The same run with more fuel ends the same way. */
  lemma {:induction false} ExecuteFuel(program: seq<nat>, m: Machine, fuel: nat, more: nat)
    requires !Execute(program, m, fuel).Exhausted? && fuel <= more
    ensures Execute(program, m, more) == Execute(program, m, fuel)
    decreases fuel
  {
    if m.ip < |program| {
      match Step(program, m)
      case Fault =>
      case Continue(next, out) =>
        ExecuteFuel(program, next, fuel - 1, more - 1);
    }
  }

  /** `run_once`: from a = `a` and b = c = 0, run to the first `out` and
      return its value with a at that moment; panic if the program ends
      first. */
  function RunOnce(program: seq<nat>, a: nat, fuel: nat): (r: Run<(nat, nat)>)
    ensures r.Ok? ==> r.value.0 < 8 && r.value.1 <= a
    ensures |program| == 0 ==> r.Panicked?
  {
    FirstOut(program, Machine(a, 0, 0, 0), fuel)
  }

  function FirstOut(program: seq<nat>, m: Machine, fuel: nat): (r: Run<(nat, nat)>)
    ensures r.Ok? ==> r.value.0 < 8 && r.value.1 <= m.a
    ensures m.ip >= |program| ==> r.Panicked?
    decreases fuel
  {
    if m.ip >= |program| then Panicked
    else if fuel == 0 then Exhausted
    else
      match Step(program, m)
      case Fault => Panicked
      case Continue(next, out) =>
        if out.Some? then Ok((out.value, m.a)) else FirstOut(program, next, fuel - 1)
  }

  /** `run_once` and the interpreter loop agree: the value `run_once`
      returns is the first value the loop prints, and when the loop prints
      nothing `run_once` panics. */
  lemma {:induction false} FirstOutIsFirst(program: seq<nat>, m: Machine, fuel: nat, fuel': nat)
    requires Execute(program, m, fuel').Ok? && !FirstOut(program, m, fuel).Exhausted?
    ensures FirstOut(program, m, fuel).Ok? <==> |Execute(program, m, fuel').value| > 0
    ensures FirstOut(program, m, fuel).Ok? ==>
      Execute(program, m, fuel').value[0] == FirstOut(program, m, fuel).value.0
    decreases fuel
  {
    if m.ip < |program| {
      match Step(program, m)
      case Fault =>
      case Continue(next, out) =>
        if out.None? {
          FirstOutIsFirst(program, next, fuel - 1, fuel' - 1);
        }
    }
  }

  /** `run_once(program, c).0 == x`. */
  ghost predicate Prints(program: seq<nat>, c: nat, x: nat, fuel: nat)
  {
    RunOnce(program, c, fuel).Ok? && RunOnce(program, c, fuel).value.0 == x
  }

  /** `(a << 3) ^ i` for i below 8: a with three more low bits. */
  function Candidate(a: nat, i: nat): (c: nat)
    requires i < 8
    ensures c == 8 * a + i
  {
    XorLowBits(a, i, 3);
    Xor(a * Pow2(3), i)
  }

  /** The numbers whose shift right by three is `a` are exactly 8a to 8a + 7. */
  lemma ShiftThree(a: nat, c: nat)
    ensures c / 8 == a <==> 8 * a <= c < 8 * a + 8
  {
    if 8 * a <= c < 8 * a + 8 {
      assert c == 8 * a + (c - 8 * a);
    }
  }

  /** The first `n` of the eight candidates, kept when `run_once` prints
      `x`; it panics, or runs out, if any of the `n` does. */
  function Candidates(program: seq<nat>, a: nat, x: nat, fuel: nat, n: nat): (r: Run<seq<nat>>)
    requires n <= 8
    ensures r.Ok? ==> |r.value| <= n
  {
    if n == 0 then Ok([])
    else
      match Candidates(program, a, x, fuel, n - 1)
      case Panicked => Panicked
      case Exhausted => Exhausted
      case Ok(front) =>
        var c := Candidate(a, n - 1);
        match RunOnce(program, c, fuel)
        case Panicked => Panicked
        case Exhausted => Exhausted
        case Ok(res) => Ok(if res.0 == x then front + [c] else front)
  }

  /** The candidates kept are exactly those among 8a to 8a + n - 1 whose
      first output is `x`, in increasing order. */
  lemma {:induction false} CandidatesCorrect(program: seq<nat>, a: nat, x: nat, fuel: nat, n: nat)
    requires n <= 8 && Candidates(program, a, x, fuel, n).Ok?
    ensures var cs := Candidates(program, a, x, fuel, n).value;
      forall k :: 0 <= k < |cs| ==> 8 * a <= cs[k] < 8 * a + n && Prints(program, cs[k], x, fuel)
    ensures var cs := Candidates(program, a, x, fuel, n).value;
      forall c :: 8 * a <= c < 8 * a + n && Prints(program, c, x, fuel) ==> c in cs
    ensures Increasing(Candidates(program, a, x, fuel, n).value)
  {
    if n > 0 {
      CandidatesCorrect(program, a, x, fuel, n - 1);
      var front := Candidates(program, a, x, fuel, n - 1).value;
      var c := Candidate(a, n - 1);
      var cs := Candidates(program, a, x, fuel, n).value;
      assert cs == if Prints(program, c, x, fuel) then front + [c] else front;
      forall k | 0 <= k < |cs|
        ensures 8 * a <= cs[k] < 8 * a + n && Prints(program, cs[k], x, fuel)
      {
        if k < |front| {
          assert cs[k] == front[k];
        }
      }
      forall d | 8 * a <= d < 8 * a + n && Prints(program, d, x, fuel)
        ensures d in cs
      {
        if d < c {
          assert d in front;
        }
      }
      assert Increasing(cs) by {
        forall j, k | 0 <= j < k < |cs|
          ensures cs[j] < cs[k]
        {
          if k < |front| {
            assert cs[j] == front[j] && cs[k] == front[k];
          }
        }
      }
    }
  }

  predicate Increasing(s: seq<nat>)
  {
    forall j, k :: 0 <= j < k < |s| ==> s[j] < s[k]
  }

  /** `next`: of the eight numbers that shift right by three to `a`, those
      whose first output is `x`, in increasing order. All eight are run, so
      any of them panicking panics. */
  function Next(program: seq<nat>, a: nat, x: nat, fuel: nat): (r: Run<seq<nat>>)
    ensures r.Ok? ==> |r.value| <= 8 && Increasing(r.value)
    ensures r.Ok? ==> forall k :: 0 <= k < |r.value| ==> r.value[k] / 8 == a && Prints(program, r.value[k], x, fuel)
    ensures r.Ok? ==> forall c :: c / 8 == a && Prints(program, c, x, fuel) ==> c in r.value
  {
    var r := Candidates(program, a, x, fuel, 8);
    if r.Ok? then
      CandidatesCorrect(program, a, x, fuel, 8);
      assert forall k :: 0 <= k < |r.value| ==> r.value[k] / 8 == a by {
        forall k | 0 <= k < |r.value| {
          ShiftThree(a, r.value[k]);
        }
      }
      assert forall c :: c / 8 == a ==> 8 * a <= c < 8 * a + 8 by {
        forall c | c / 8 == a {
          ShiftThree(a, c);
        }
      }
      r
    else r
  }

  /** The program value the search matches at `depth`, counting from the
      end. */
  function Target(program: seq<nat>, depth: nat): (x: nat)
    requires depth < |program|
    ensures x in program
  {
    program[|program| - depth - 1]
  }

  /** `r` is what the search can reach from `a` at `depth`: a chain of
      three-bit extensions, one per remaining program value, each of whose
      first output is that value. */
  ghost predicate Extends(program: seq<nat>, fuel: nat, a: nat, depth: nat, r: nat)
    requires depth <= |program|
    decreases |program| - depth
  {
    if depth == |program| then r == a
    else exists c :: Child(program, fuel, a, depth, c) && Extends(program, fuel, c, depth + 1, r)
  }

  ghost predicate Child(program: seq<nat>, fuel: nat, a: nat, depth: nat, c: nat)
    requires depth < |program|
  {
    c / 8 == a && Prints(program, c, Target(program, depth), fuel)
  }

  /** `dfs`: at full depth the number found; otherwise the first
      candidate, in increasing order, from which the search succeeds. */
  function Dfs(program: seq<nat>, a: nat, depth: nat, fuel: nat): (r: Run<Option<nat>>)
    requires depth <= |program|
    ensures depth == |program| ==> r == Ok(Some(a))
    decreases |program| - depth, 1, 0
  {
    if depth == |program| then Ok(Some(a))
    else
      match Next(program, a, Target(program, depth), fuel)
      case Panicked => Panicked
      case Exhausted => Exhausted
      case Ok(cands) => FirstFound(program, cands, depth + 1, fuel)
  }

  /** `flat_map(..).next()`: search the candidates in order and stop at
      the first that succeeds. */
  function FirstFound(program: seq<nat>, cands: seq<nat>, depth: nat, fuel: nat): (r: Run<Option<nat>>)
    requires 0 < depth <= |program|
    ensures cands == [] ==> r == Ok(None)
    decreases |program| - depth + 1, 0, |cands|
  {
    if cands == [] then Ok(None)
    else
      match Dfs(program, cands[0], depth, fuel)
      case Ok(Some(r)) => Ok(Some(r))
      case Ok(None) => FirstFound(program, cands[1..], depth, fuel)
      case Panicked => Panicked
      case Exhausted => Exhausted
  }

  /** Each extension step appends three bits, so what is reachable from `a`
      with `m` steps left lies in [a * 8^m, (a + 1) * 8^m). */
  lemma {:induction false} ExtendsRange(program: seq<nat>, fuel: nat, a: nat, depth: nat, r: nat)
    requires depth <= |program| && Extends(program, fuel, a, depth, r)
    ensures a * Pow2(3 * (|program| - depth)) <= r < (a + 1) * Pow2(3 * (|program| - depth))
    decreases |program| - depth
  {
    if depth < |program| {
      var c :| Child(program, fuel, a, depth, c) && Extends(program, fuel, c, depth + 1, r);
      ExtendsRange(program, fuel, c, depth + 1, r);
      var q := Pow2(3 * (|program| - depth - 1));
      Pow2Add(3, 3 * (|program| - depth - 1));
      assert Pow2(3 * (|program| - depth)) == 8 * q;
      ShiftThree(a, c);
      ScaleRange(a, c, q);
    }
  }

  lemma ScaleRange(a: nat, c: nat, q: nat)
    requires 8 * a <= c < 8 * a + 8
    ensures a * (8 * q) <= c * q && (c + 1) * q <= (a + 1) * (8 * q)
  {
    MulLe(8 * a, c, q);
    MulLe(c + 1, 8 * a + 8, q);
  }

  /** What `dfs` returns is reachable, and it is the least number
      reachable; when it finds nothing, nothing is reachable. */
  lemma {:induction false} DfsCorrect(program: seq<nat>, a: nat, depth: nat, fuel: nat)
    requires depth <= |program|
    ensures Dfs(program, a, depth, fuel) == Ok(None) ==> forall r :: !Extends(program, fuel, a, depth, r)
    ensures Found(Dfs(program, a, depth, fuel)) ==> Extends(program, fuel, a, depth, Dfs(program, a, depth, fuel).value.value)
    ensures Found(Dfs(program, a, depth, fuel)) ==>
      forall r :: Extends(program, fuel, a, depth, r) ==> Dfs(program, a, depth, fuel).value.value <= r
    decreases |program| - depth, 1, 0
  {
    if depth < |program| {
      var next := Next(program, a, Target(program, depth), fuel);
      if next.Ok? {
        var cands := next.value;
        FirstFoundCorrect(program, cands, depth + 1, fuel);
        forall r | Extends(program, fuel, a, depth, r)
          ensures exists k :: 0 <= k < |cands| && Extends(program, fuel, cands[k], depth + 1, r)
        {
          var c :| Child(program, fuel, a, depth, c) && Extends(program, fuel, c, depth + 1, r);
          assert c in cands;
        }
        if Found(Dfs(program, a, depth, fuel)) {
          var k :| 0 <= k < |cands| && Extends(program, fuel, cands[k], depth + 1, Dfs(program, a, depth, fuel).value.value);
          assert Child(program, fuel, a, depth, cands[k]);
        }
      }
    }
  }

  predicate Found(r: Run<Option<nat>>)
  {
    r.Ok? && r.value.Some?
  }

  /** Over candidates in increasing order, the first success is the least
      number reachable from any of them. */
  lemma {:induction false} FirstFoundCorrect(program: seq<nat>, cands: seq<nat>, depth: nat, fuel: nat)
    requires 0 < depth <= |program| && Increasing(cands)
    ensures FirstFound(program, cands, depth, fuel) == Ok(None) ==>
      forall k, r :: 0 <= k < |cands| ==> !Extends(program, fuel, cands[k], depth, r)
    ensures Found(FirstFound(program, cands, depth, fuel)) ==>
      exists k :: 0 <= k < |cands| && Extends(program, fuel, cands[k], depth, FirstFound(program, cands, depth, fuel).value.value)
    ensures Found(FirstFound(program, cands, depth, fuel)) ==>
      forall k, r :: 0 <= k < |cands| && Extends(program, fuel, cands[k], depth, r) ==>
        FirstFound(program, cands, depth, fuel).value.value <= r
    decreases |program| - depth + 1, 0, |cands|
  {
    if cands != [] {
      var first := Dfs(program, cands[0], depth, fuel);
      DfsCorrect(program, cands[0], depth, fuel);
      if first == Ok(None) {
        var rest := cands[1..];
        FirstFoundCorrect(program, rest, depth, fuel);
        assert forall k :: 1 <= k < |cands| ==> cands[k] == rest[k - 1];
        if Found(FirstFound(program, cands, depth, fuel)) {
          var j :| 0 <= j < |rest| && Extends(program, fuel, rest[j], depth, FirstFound(program, rest, depth, fuel).value.value);
          assert cands[j + 1] == rest[j];
        }
      } else if Found(first) {
        HeadIsLeast(program, cands, depth, fuel, first.value.value);
      }
    }
  }

  /** Over increasing candidates, the least number the first one reaches
      is below anything any of them reaches. */
  lemma HeadIsLeast(program: seq<nat>, cands: seq<nat>, depth: nat, fuel: nat, found: nat)
    requires 0 < depth <= |program| && Increasing(cands) && |cands| > 0
    requires Extends(program, fuel, cands[0], depth, found)
    requires forall r :: Extends(program, fuel, cands[0], depth, r) ==> found <= r
    ensures forall k, r :: 0 <= k < |cands| && Extends(program, fuel, cands[k], depth, r) ==> found <= r
  {
    var p := Pow2(3 * (|program| - depth));
    ExtendsRange(program, fuel, cands[0], depth, found);
    forall k, r | 0 < k < |cands| && Extends(program, fuel, cands[k], depth, r)
      ensures found <= r
    {
      ExtendsRange(program, fuel, cands[k], depth, r);
      BelowNextBlock(cands[0], cands[k], p, found, r);
    }
  }

  /** Blocks of width `p`: a number in block `a` is below one in a later
      block `b`. */
  lemma BelowNextBlock(a: nat, b: nat, p: nat, x: nat, y: nat)
    requires a < b && x < (a + 1) * p && b * p <= y
    ensures x <= y
  {
    MulLe(a + 1, b, p);
  }

  /** `part2`'s search from a = 0; `unwrap` panics when nothing is found. */
  function Search(program: seq<nat>, fuel: nat): (r: Run<nat>)
    ensures r.Ok? ==> Extends(program, fuel, 0, 0, r.value)
    ensures r.Ok? ==> forall r' :: Extends(program, fuel, 0, 0, r') ==> r.value <= r'
    ensures Dfs(program, 0, 0, fuel).Ok? && !r.Ok? ==> forall r' :: !Extends(program, fuel, 0, 0, r')
    ensures r.Ok? <==> (Dfs(program, 0, 0, fuel).Ok? && exists r': nat :: Extends(program, fuel, 0, 0, r'))
    ensures r.Exhausted? <==> Dfs(program, 0, 0, fuel).Exhausted?
  {
    DfsCorrect(program, 0, 0, fuel);
    match Dfs(program, 0, 0, fuel)
    case Ok(Some(a)) =>
      assert Extends(program, fuel, 0, 0, a);
      Ok(a)
    case Ok(None) =>
      assert !exists r': nat :: Extends(program, fuel, 0, 0, r');
      Panicked
    case Panicked => Panicked
    case Exhausted => Exhausted
  }

  // ----- input and output text -----

  /** `bs[0] - b'0'` on every comma-separated piece: an empty piece, or one
      starting below '0' (which underflows the byte), panics. */
  function Codes(pieces: seq<seq<char>>): (r: Option<seq<nat>>)
    ensures r.Some? <==> forall k :: 0 <= k < |pieces| ==> |pieces[k]| > 0 && pieces[k][0] >= '0'
    ensures r.Some? ==> |r.value| == |pieces|
    ensures r.Some? ==> forall k :: 0 <= k < |pieces| ==> r.value[k] == pieces[k][0] as int - '0' as int
  {
    if |pieces| == 0 then Some([])
    else if |pieces[0]| == 0 || pieces[0][0] < '0' then None
    else
      match Codes(pieces[1..])
      case None => None
      case Some(rest) => Some([pieces[0][0] as int - '0' as int] + rest)
  }

  /** The second space-separated field of the program line, split on
      commas. */
  function ProgramOf(line: seq<char>): (r: Option<seq<nat>>)
    ensures r.Some? <==>
      var f := Text.Split(line, ' ');
      |f| >= 2 && Codes(Text.Split(f[1], ',')).Some?
  {
    var f := Text.Split(line, ' ');
    if |f| >= 2 then Codes(Text.Split(f[1], ',')) else None
  }

  /** The third space-separated field of a register line, read as a
      decimal number of at most ten digits. */
  function RegisterOf(line: seq<char>): (r: Option<nat>)
    ensures r.Some? <==> var f := Text.Split(line, ' '); |f| >= 3 && |f[2]| <= 10
    ensures r.Some? && Decimal.IsDecimalText(Text.Split(line, ' ')[2]) ==>
      r.value == Decimal.Parse(Text.Split(line, ' ')[2])
  {
    var f := Text.Split(line, ' ');
    if |f| >= 3 && |f[2]| <= 10 then Some(UsizeFromBytes(f[2])) else None
  }

  /** Every output as its digit, joined with commas: digits at the even
      positions, commas between them. */
  function OutputText(out: seq<nat>): (s: seq<char>)
    requires forall k :: 0 <= k < |out| ==> out[k] < 10
    ensures |out| == 0 ==> s == []
    ensures |out| > 0 ==> |s| == 2 * |out| - 1
    ensures forall i :: 0 <= i < |s| ==> s[i] == if i % 2 == 0 then Decimal.DigitChar(out[i / 2]) else ','
  {
    if |out| == 0 then []
    else
      DigitsLayout(out);
      Text.Join(DigitPieces(out), ',')
  }

  function DigitPieces(out: seq<nat>): (pieces: seq<seq<char>>)
    requires forall k :: 0 <= k < |out| ==> out[k] < 10
    ensures |pieces| == |out|
    ensures forall k :: 0 <= k < |out| ==> pieces[k] == [Decimal.DigitChar(out[k])]
  {
    seq(|out|, k requires 0 <= k < |out| => [Decimal.DigitChar(out[k])])
  }

  lemma {:induction false} DigitsLayout(out: seq<nat>)
    requires |out| >= 1 && forall k :: 0 <= k < |out| ==> out[k] < 10
    ensures var s := Text.Join(DigitPieces(out), ',');
      |s| == 2 * |out| - 1 &&
      forall i :: 0 <= i < |s| ==> s[i] == if i % 2 == 0 then Decimal.DigitChar(out[i / 2]) else ','
    decreases |out|
  {
    var n := |out|;
    var pieces := DigitPieces(out);
    if n > 1 {
      var init := out[..n - 1];
      DigitsLayout(init);
      assert pieces[..n - 1] == DigitPieces(init);
      var t := Text.Join(DigitPieces(init), ',');
      var s := Text.Join(pieces, ',');
      assert s == t + [','] + [Decimal.DigitChar(out[n - 1])];
      forall i | 0 <= i < |s|
        ensures s[i] == if i % 2 == 0 then Decimal.DigitChar(out[i / 2]) else ','
      {
        if i < |t| {
          assert s[i] == t[i];
          if i % 2 == 0 {
            assert init[i / 2] == out[i / 2];
          }
        }
      }
    }
  }

  /** The printed outputs read back, through the program-line parser, as
      the outputs themselves: printing and parsing are inverse. */
  lemma OutputRoundTrip(out: seq<nat>)
    requires |out| >= 1 && forall k :: 0 <= k < |out| ==> out[k] < 10
    ensures Codes(Text.Split(OutputText(out), ',')) == Some(out)
  {
    var pieces := DigitPieces(out);
    assert forall k :: 0 <= k < |pieces| ==> ',' !in pieces[k] by {
      forall k | 0 <= k < |pieces|
        ensures ',' !in pieces[k]
      {
        assert pieces[k] == [Decimal.DigitChar(out[k])];
      }
    }
    Text.SplitJoin(pieces, ',');
    CodesOfDigits(out, pieces);
  }

  lemma CodesOfDigits(out: seq<nat>, pieces: seq<seq<char>>)
    requires forall k :: 0 <= k < |out| ==> out[k] < 10
    requires pieces == DigitPieces(out)
    ensures Codes(pieces) == Some(out)
  {
    assert forall k :: 0 <= k < |pieces| ==> |pieces[k]| > 0 && pieces[k][0] >= '0';
    var r := Codes(pieces).value;
    forall k | 0 <= k < |out|
      ensures r[k] == out[k]
    {
      assert pieces[k][0] == Decimal.DigitChar(out[k]);
    }
    assert r == out;
  }

  /** The registers from the first three lines and the program from the
      fifth, as `part1` reads them; `None` where reading panics. */
  function Loaded(input: seq<char>): Option<(seq<nat>, Machine)>
  {
    var lines := Text.Split(input, '\n');
    if |lines| < 5 then None
    else
      var a, b, c := RegisterOf(lines[0]), RegisterOf(lines[1]), RegisterOf(lines[2]);
      var program := ProgramOf(lines[4]);
      if a.None? || b.None? || c.None? || program.None? then None
      else Some((program.value, Machine(a.value, b.value, c.value, 0)))
  }

  /** Octal outputs print as digits `0` to `7` and commas. */
  lemma OctalText(out: seq<nat>)
    requires forall k :: 0 <= k < |out| ==> out[k] < 8
    ensures var s := OutputText(out);
      forall k :: 0 <= k < |s| ==> s[k] == ',' || '0' <= s[k] <= '7'
  {
    var s := OutputText(out);
    forall k | 0 <= k < |s| && k % 2 == 0
      ensures '0' <= s[k] <= '7'
    {
      assert out[k / 2] < 8;
    }
  }

  /** The outputs of a run as `part1` prints them: each value's digit,
      joined with commas. The text reads back as the values. */
  function Print(run: Run<seq<nat>>): (r: Run<seq<char>>)
    requires run.Ok? ==> forall k :: 0 <= k < |run.value| ==> run.value[k] < 8
    ensures r.Ok? <==> run.Ok?
    ensures r.Ok? ==> forall k :: 0 <= k < |r.value| ==> r.value[k] == ',' || '0' <= r.value[k] <= '7'
    ensures r.Ok? && |run.value| == 0 ==> r.value == []
    ensures r.Ok? && |run.value| > 0 ==> Codes(Text.Split(r.value, ',')) == Some(run.value)
  {
    match run
    case Ok(out) =>
      OctalText(out);
      if |out| > 0 then OutputRoundTrip(out); Ok(OutputText(out)) else Ok(OutputText(out))
    case Panicked => Panicked
    case Exhausted => Exhausted
  }

  /** `part1`: read the three registers from the first three lines and
      the program from the fifth, run it, and print the outputs. The text
      printed reads back as the outputs of the run. */
  function Part1(input: seq<char>, fuel: nat): (r: Run<seq<char>>)
    ensures r.Ok? ==> forall k :: 0 <= k < |r.value| ==> r.value[k] == ',' || '0' <= r.value[k] <= '7'
    ensures Loaded(input).None? ==> r.Panicked?
    ensures Loaded(input).Some? ==> var (program, m) := Loaded(input).value;
      var run := Execute(program, m, fuel);
      (r.Ok? <==> run.Ok?) &&
      (r.Ok? && |run.value| == 0 ==> r.value == []) &&
      (r.Ok? && |run.value| > 0 ==> Codes(Text.Split(r.value, ',')) == Some(run.value))
  {
    match Loaded(input)
    case None => Panicked
    case Some((program, m)) => Print(Execute(program, m, fuel))
  }

  /** `part2`: the program from the fifth line, and the search from 0.
      A missing fifth line or program panics in the `unwrap`s, and so
      does a search that finds nothing. */
  function Part2(input: seq<char>, fuel: nat): (r: Run<nat>)
    ensures r.Ok? ==> |Text.Split(input, '\n')| >= 5 && ProgramOf(Text.Split(input, '\n')[4]).Some?
    ensures |Text.Split(input, '\n')| < 5 || ProgramOf(Text.Split(input, '\n')[4]).None? ==> r.Panicked?
    ensures |Text.Split(input, '\n')| >= 5 && ProgramOf(Text.Split(input, '\n')[4]).Some? ==>
      var program := ProgramOf(Text.Split(input, '\n')[4]).value;
      (r.Ok? <==> (Dfs(program, 0, 0, fuel).Ok? && exists r': nat :: Extends(program, fuel, 0, 0, r'))) &&
      (r.Exhausted? <==> Dfs(program, 0, 0, fuel).Exhausted?)
    ensures r.Ok? ==> var program := ProgramOf(Text.Split(input, '\n')[4]).value;
      Extends(program, fuel, 0, 0, r.value) &&
      forall r' :: Extends(program, fuel, 0, 0, r') ==> r.value <= r'
  {
    var lines := Text.Split(input, '\n');
    if |lines| < 5 then Panicked
    else
      match ProgramOf(lines[4])
      case Some(program) =>
        var r := Search(program, fuel);
        assert r.Ok? <==> (Dfs(program, 0, 0, fuel).Ok? && exists r': nat :: Extends(program, fuel, 0, 0, r'));
        r
      case None => Panicked
  }

  // ----- the example program -----

  /** The program `0,1,5,4,3,0`: halve a, print its low three bits, and
      jump back while a is not zero. */
  const Halver: seq<nat> := [0, 1, 5, 4, 3, 0]

  /** What that program prints from a >= 1. */
  function Halvings(a: nat): seq<nat>
    requires a >= 1
    decreases a
  {
    if a < 2 then [0] else [a / 2 % 8] + Halvings(a / 2)
  }

  function Rounds(a: nat): nat
    decreases a
  {
    if a < 2 then 1 else 1 + Rounds(a / 2)
  }

  function Emit(x: nat, r: Run<seq<nat>>): Run<seq<nat>>
  {
    if r.Ok? then Ok([x] + r.value) else r
  }

  lemma HalverRound(p: seq<nat>, a: nat, fuel: nat)
    requires p == Halver && a >= 2
    ensures Execute(p, Machine(a, 0, 0, 0), fuel + 3) == Emit(a / 2 % 8, Execute(p, Machine(a / 2, 0, 0, 0), fuel))
  {
    assert Pow2(1) == 2;
    assert Step(p, Machine(a, 0, 0, 0)) == Continue(Machine(a / 2, 0, 0, 2), None);
    assert Step(p, Machine(a / 2, 0, 0, 2)) == Continue(Machine(a / 2, 0, 0, 4), Some(a / 2 % 8));
    assert Step(p, Machine(a / 2, 0, 0, 4)) == Continue(Machine(a / 2, 0, 0, 0), None);
    assert Execute(p, Machine(a / 2, 0, 0, 4), fuel + 1) == Execute(p, Machine(a / 2, 0, 0, 0), fuel);
  }

  lemma HalverLast(p: seq<nat>, fuel: nat)
    requires p == Halver
    ensures Execute(p, Machine(1, 0, 0, 0), fuel + 3) == Ok([0])
  {
    assert Pow2(1) == 2;
    assert Step(p, Machine(1, 0, 0, 0)) == Continue(Machine(0, 0, 0, 2), None);
    assert Step(p, Machine(0, 0, 0, 2)) == Continue(Machine(0, 0, 0, 4), Some(0));
    assert Step(p, Machine(0, 0, 0, 4)) == Continue(Machine(0, 0, 0, 6), None);
    assert Execute(p, Machine(0, 0, 0, 6), fuel) == Ok([]);
    assert Execute(p, Machine(0, 0, 0, 4), fuel + 1) == Ok([]);
    assert [0] + [] == [0];
  }

  /** With three steps of fuel per round, the program prints the
      halvings of a. */
  lemma {:induction false} HalverRun(p: seq<nat>, a: nat, fuel: nat)
    requires p == Halver && a >= 1 && fuel >= 3 * Rounds(a)
    ensures Execute(p, Machine(a, 0, 0, 0), fuel) == Ok(Halvings(a))
    decreases a
  {
    if a < 2 {
      HalverLast(p, fuel - 3);
    } else {
      var f := fuel - 3;
      HalverRound(p, a, f);
      HalverRun(p, a / 2, f);
      EmitHalving(a, Execute(p, Machine(a, 0, 0, 0), f + 3), Execute(p, Machine(a / 2, 0, 0, 0), f));
    }
  }

  /** Printing one halving in front of the rest prints them all. */
  lemma EmitHalving(a: nat, whole: Run<seq<nat>>, rest: Run<seq<nat>>)
    requires a >= 2 && whole == Emit(a / 2 % 8, rest) && rest == Ok(Halvings(a / 2))
    ensures whole == Ok(Halvings(a))
  {
  }

  /** From a = 729 the program prints 4,6,3,5,6,3,5,2,1,0. */
  lemma HalverExample(p: seq<nat>, a: nat, fuel: nat)
    requires p == Halver && a == 729 && fuel >= 30
    ensures Execute(p, Machine(a, 0, 0, 0), fuel) == Ok([4, 6, 3, 5, 6, 3, 5, 2, 1, 0])
  {
    HalvingsOf729();
    HalverRun(p, a, fuel);
  }

  lemma HalvingsOf729()
    ensures Rounds(729) == 10
    ensures Halvings(729) == [4, 6, 3, 5, 6, 3, 5, 2, 1, 0]
  {
  }

  /** Those outputs print as `4,6,3,5,6,3,5,2,1,0`. */
  lemma PrintExample(out: seq<nat>)
    requires out == [4, 6, 3, 5, 6, 3, 5, 2, 1, 0]
    ensures OutputText(out) == "4,6,3,5,6,3,5,2,1,0"
  {
    var s := OutputText(out);
    var t := "4,6,3,5,6,3,5,2,1,0";
    forall i | 0 <= i < |s|
      ensures s[i] == t[i]
    {
      if i % 2 == 0 {
        DigitAt(out, t, i / 2);
      }
    }
  }

  lemma DigitAt(out: seq<nat>, t: seq<char>, k: nat)
    requires out == [4, 6, 3, 5, 6, 3, 5, 2, 1, 0] && t == "4,6,3,5,6,3,5,2,1,0" && k < 10
    ensures Decimal.DigitChar(out[k]) == t[2 * k]
  {
  }
}
