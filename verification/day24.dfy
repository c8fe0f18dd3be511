/** Day 24: crossed wires. A circuit of AND, OR and XOR gates over named
    wires is evaluated on demand: the output wires `z00`, `z01`, ... are
    queued, each queued wire whose inputs are not yet known queues those
    inputs and itself again, and the `z` wires finally spell a number,
    least significant bit first. */
module Day24 {
  import opened Common
  import opened Bits
  import Text

  /** `Gate`: a three-byte wire name. */
  datatype Wire = Wire(first: char, second: char, third: char)

  /** The wire named by the three bytes of `line` from `at` on. */
  function WireAt(line: seq<char>, at: nat): Wire
    requires at + 3 <= |line|
  {
    Wire(line[at], line[at + 1], line[at + 2])
  }

  datatype Op = And | Or | Xor

  /** `Op::len`: the length of the operator's name in a gate line. */
  function Len(op: Op): (r: nat)
    ensures r == |Name(op)|
  {
    match op
    case And => 3
    case Or => 2
    case Xor => 3
  }

  function Name(op: Op): seq<char>
  {
    match op
    case And => "AND"
    case Or => "OR"
    case Xor => "XOR"
  }

  /** `Op::apply`. */
  function Apply(op: Op, a: bool, b: bool): (r: bool)
    ensures op == And ==> (r <==> a && b)
    ensures op == Or ==> (r <==> a || b)
    ensures op == Xor ==> (r <==> a != b)
  {
    match op
    case And => a && b
    case Or => a || b
    case Xor => a != b
  }

  /** A gate: the operator and its two input wires. */
  datatype Gate = Gate(op: Op, in1: Wire, in2: Wire)

  /** The name `c` followed by the two digit bytes of `i`; the tens digit
      passes 255 and the `u8` addition panics from `i` = 2080 on. */
  function Label(c: char, i: nat): (w: Wire)
    requires i < 2080
    ensures w.first == c && Index(w) == i
  {
    Wire(c, (48 + i / 10) as char, (48 + i % 10) as char)
  }

  /** The number the two digit bytes of a label spell. */
  function Index(w: Wire): int
  {
    (w.second as int - 48) * 10 + (w.third as int - 48)
  }

  /** Below 100 the label is the letter and the two decimal digits. */
  lemma LabelDigits(c: char, i: nat)
    requires i < 100
    ensures '0' <= Label(c, i).second <= '9' && '0' <= Label(c, i).third <= '9'
    ensures i == (Label(c, i).second as int - '0' as int) * 10 + (Label(c, i).third as int - '0' as int)
  {
  }

  /** Different indices or letters give different names. */
  lemma LabelInjective(c: char, d: char, i: nat, j: nat)
    requires i < 2080 && j < 2080 && Label(c, i) == Label(d, j)
    ensures c == d && i == j
  {
    assert i / 10 == j / 10 && i % 10 == j % 10;
  }

  /** Under `cNN` the map holds bit `NN` of `x`, for every `NN` below
      `len`. */
  predicate Holds(values: map<Wire, bool>, c: char, x: nat, len: nat)
    requires len <= 2080
  {
    forall i :: 0 <= i < len ==> Label(c, i) in values && values[Label(c, i)] == (Bit(x, i) == 1)
  }

  /** Writing bit `len` under its label extends what the map holds. */
  lemma HoldsNext(values: map<Wire, bool>, c: char, x: nat, len: nat)
    requires len < 2080 && Holds(values, c, x, len)
    ensures Holds(values[Label(c, len) := Bit(x, len) == 1], c, x, len + 1)
  {
    var next := values[Label(c, len) := Bit(x, len) == 1];
    forall i | 0 <= i < len + 1
      ensures Label(c, i) in next && next[Label(c, i)] == (Bit(x, i) == 1)
    {
      if i < len {
        assert Index(Label(c, i)) == i;
      }
    }
  }

  /** Writing under another letter leaves what the map holds alone. */
  lemma HoldsOther(values: map<Wire, bool>, c: char, x: nat, len: nat, w: Wire, b: bool)
    requires len <= 2080 && Holds(values, c, x, len) && w.first != c
    ensures Holds(values[w := b], c, x, len)
  {
    var next := values[w := b];
    forall i | 0 <= i < len
      ensures Label(c, i) in next && next[Label(c, i)] == (Bit(x, i) == 1)
    {
      assert Label(c, i).first == c;
    }
  }

  /** `x & (1 << i) != 0` for `i` below 64. */
  function TestBit(x: nat, i: nat): (r: bool)
    requires i < 64
    ensures r <==> Bit(x, i) == 1
  {
    AndPow2(x, i);
    Bits.And(x, Shl(1, i)) != 0
  }

  /** `prepare_values`: bit `i` of `x` and of `y` under `xNN` and `yNN`
      for every `i` below `len`, and nothing else; `1 << i` overflows from
      `i` = 64 on. */
  function PrepareValues(x: nat, y: nat, len: nat): (r: map<Wire, bool>)
    requires len <= 64
    ensures forall w :: w in r ==> 0 <= Index(w) < len && (w == Label('x', Index(w)) || w == Label('y', Index(w)))
    ensures Holds(r, 'x', x, len) && Holds(r, 'y', y, len)
  {
    if len == 0 then map[]
    else
      var i := len - 1;
      var front := PrepareValues(x, y, i);
      var xb := TestBit(x, i);
      var yb := TestBit(y, i);
      var half := front[Label('x', i) := xb];
      HoldsNext(front, 'x', x, i);
      HoldsOther(front, 'y', y, i, Label('x', i), xb);
      HoldsNext(half, 'y', y, i);
      HoldsOther(half, 'x', x, len, Label('y', i), yb);
      half[Label('y', i) := yb]
  }

  /** The values of the wires `cNN` for `NN` below `len`, in order;
      `None` where one of them has no value. */
  function ReadBits(values: map<Wire, bool>, c: char, len: nat): (r: Option<seq<bool>>)
    requires len <= 2080
    ensures r.Some? <==> forall i :: 0 <= i < len ==> Label(c, i) in values
    ensures r.Some? ==> |r.value| == len && forall i :: 0 <= i < len ==> r.value[i] == values[Label(c, i)]
  {
    if forall i :: 0 <= i < len ==> Label(c, i) in values then
      Some(seq(len, i requires 0 <= i < len => values[Label(c, i)]))
    else None
  }

  /** The number whose binary digits are `bits`, least significant first. */
  function Number(bits: seq<bool>): nat
  {
    if |bits| == 0 then 0
    else Number(bits[..|bits| - 1]) + (if bits[|bits| - 1] then Pow2(|bits| - 1) else 0)
  }

  lemma {:induction false} NumberBound(bits: seq<bool>)
    ensures Number(bits) < Pow2(|bits|)
  {
    if |bits| > 0 {
      NumberBound(bits[..|bits| - 1]);
    }
  }

  /** Bit `i` of the number is `bits[i]`. */
  lemma {:induction false} NumberBit(bits: seq<bool>, i: nat)
    requires i < |bits|
    ensures Bit(Number(bits), i) == 1 <==> bits[i]
  {
    var j := |bits| - 1;
    var front := bits[..j];
    NumberBound(front);
    var b := if bits[j] then 1 else 0;
    assert Number(bits) == Number(front) + b * Pow2(j);
    BitOfSum(Number(front), b, j, i);
    if i < j {
      NumberBit(front, i);
    }
  }

  /** The first `len` bits of `x`. */
  function BitsOf(x: nat, len: nat): (r: seq<bool>)
    ensures |r| == len && forall i :: 0 <= i < len ==> r[i] == (Bit(x, i) == 1)
  {
    seq(len, i requires 0 <= i => Bit(x, i) == 1)
  }

  /** The first `len` bits spell the remainder modulo 2^len. */
  lemma {:induction false} NumberOfBits(x: nat, len: nat)
    ensures Number(BitsOf(x, len)) == x % Pow2(len)
  {
    if len > 0 {
      NumberOfBits(x, len - 1);
      assert BitsOf(x, len)[..len - 1] == BitsOf(x, len - 1);
      LowBits(x, len - 1);
    }
  }

  /** Writing `x` and `y` onto their wires and reading them back gives
      their low `len` bits. */
  lemma PrepareRead(x: nat, y: nat, len: nat)
    requires len <= 64
    ensures ReadBits(PrepareValues(x, y, len), 'x', len) == Some(BitsOf(x, len))
    ensures ReadBits(PrepareValues(x, y, len), 'y', len) == Some(BitsOf(y, len))
    ensures Number(BitsOf(x, len)) == x % Pow2(len) && Number(BitsOf(y, len)) == y % Pow2(len)
  {
    PrepareReadX(x, y, len);
    PrepareReadY(x, y, len);
    NumberOfBits(x, len);
    NumberOfBits(y, len);
  }

  /** The `x` wires read back the low bits of `x`. */
  lemma PrepareReadX(x: nat, y: nat, len: nat)
    requires len <= 64
    ensures ReadBits(PrepareValues(x, y, len), 'x', len) == Some(BitsOf(x, len))
  {
    var rx := ReadBits(PrepareValues(x, y, len), 'x', len);
    assert rx.Some?;
    assert rx.value == BitsOf(x, len) by {
      forall i | 0 <= i < len
        ensures rx.value[i] == BitsOf(x, len)[i]
      {}
    }
  }

  /** The `y` wires read back the low bits of `y`. */
  lemma PrepareReadY(x: nat, y: nat, len: nat)
    requires len <= 64
    ensures ReadBits(PrepareValues(x, y, len), 'y', len) == Some(BitsOf(y, len))
  {
    var ry := ReadBits(PrepareValues(x, y, len), 'y', len);
    assert ry.Some?;
    assert ry.value == BitsOf(y, len) by {
      forall i | 0 <= i < len
        ensures ry.value[i] == BitsOf(y, len)[i]
      {}
    }
  }

  /** `get_output`'s loop from the top bit down: shift the number left
      and add the next bit. */
  function Horner(bits: seq<bool>, acc: nat): nat
  {
    if |bits| == 0 then acc
    else Horner(bits[..|bits| - 1], 2 * acc + (if bits[|bits| - 1] then 1 else 0))
  }

  /** `get_output`: panics unless every `zNN` below `len` has a value. */
  function GetOutput(values: map<Wire, bool>, len: nat): Option<nat>
    requires len <= 2080
  {
    match ReadBits(values, 'z', len)
    case None => None
    case Some(bits) => Some(Horner(bits, 0))
  }

  /** Shifting in from the most significant end gives the sum of the
      bits' place values. */
  lemma {:induction false} HornerNumber(bits: seq<bool>, acc: nat)
    ensures Horner(bits, acc) == acc * Pow2(|bits|) + Number(bits)
  {
    if |bits| > 0 {
      var j := |bits| - 1;
      var b := if bits[j] then 1 else 0;
      HornerNumber(bits[..j], 2 * acc + b);
      assert Pow2(|bits|) == 2 * Pow2(j);
      ShiftIn(acc, b, Pow2(j));
    }
  }

  lemma ShiftIn(acc: nat, b: nat, p: nat)
    ensures (2 * acc + b) * p == acc * (2 * p) + b * p
  {
  }

  /** `get_output` returns the number the `z` wires spell, below 2^len. */
  lemma GetOutputNumber(values: map<Wire, bool>, len: nat)
    requires len <= 2080 && GetOutput(values, len).Some?
    ensures GetOutput(values, len).value == Number(ReadBits(values, 'z', len).value)
    ensures GetOutput(values, len).value < Pow2(len)
  {
    var bits := ReadBits(values, 'z', len).value;
    HornerNumber(bits, 0);
    NumberBound(bits);
  }

  /** The queue of `run` starts with the output wires in order. */
  function Outputs(len: nat): (r: seq<Wire>)
    requires len <= 2080
    ensures |r| == len && forall i :: 0 <= i < len ==> r[i] == Label('z', i)
  {
    seq(len, i requires 0 <= i < len => Label('z', i))
  }

  /** One turn of `run`'s loop on a non-empty queue: the front wire's
      gate is looked up, panicking without one; each input that has no
      value is queued; then the gate's value is stored if both inputs
      have one, and the wire is queued again otherwise. */
  function Step(gates: map<Wire, Gate>, values: map<Wire, bool>, queue: seq<Wire>): (r: Option<(map<Wire, bool>, seq<Wire>)>)
    requires |queue| > 0
    ensures r.None? <==> queue[0] !in gates
    ensures r.Some? ==> values.Keys <= r.value.0.Keys && |r.value.1| >= |queue| - 1 && r.value.1[..|queue| - 1] == queue[1..]
    ensures r.Some? ==> forall k :: |queue| - 1 <= k < |r.value.1| ==> r.value.1[k] !in values || r.value.1[k] == queue[0]
    ensures r.Some? ==> queue[0] in r.value.0 || queue[0] in r.value.1[|queue| - 1..]
    ensures r.Some? && queue[0] in r.value.0 && queue[0] !in values ==>
      var g := gates[queue[0]];
      g.in1 in values && g.in2 in values && r.value.0 == values[queue[0] := Apply(g.op, values[g.in1], values[g.in2])]
  {
    var w := queue[0];
    if w !in gates then None
    else
      var g := gates[w];
      var more := (if g.in1 !in values then [g.in1] else []) + (if g.in2 !in values then [g.in2] else []);
      if g.in1 in values && g.in2 in values then
        Some((values[w := Apply(g.op, values[g.in1], values[g.in2])], queue[1..] + more))
      else
        var q := queue[1..] + more + [w];
        assert q[|queue| - 1..][|q| - |queue|] == w;
        Some((values, q))
  }

  /** How `run` ends: with the stored values, with a panic, or still
      going when the fuel runs out. */
  datatype Outcome = Done(values: map<Wire, bool>) | Panic | Unfinished

  /** `run`, for at most `fuel` turns. Every wire ever queued has a value
      when it stops, so in particular every output wire does. */
  function Run(gates: map<Wire, Gate>, values: map<Wire, bool>, queue: seq<Wire>, fuel: nat): (r: Outcome)
    ensures r.Done? ==> values.Keys <= r.values.Keys
    ensures r.Done? ==> forall k :: 0 <= k < |queue| ==> queue[k] in r.values
    decreases fuel
  {
    if |queue| == 0 then Done(values)
    else if fuel == 0 then Unfinished
    else
      match Step(gates, values, queue)
      case None => Panic
      case Some((next, rest)) =>
        var r := Run(gates, next, rest, fuel - 1);
        if r.Done? then
          StillQueued(queue, next, rest, r.values);
          r
        else r
  }

  /** A turn keeps every wire of the queue in the stored values or in
      the queue that follows. */
  lemma StillQueued(queue: seq<Wire>, next: map<Wire, bool>, rest: seq<Wire>, last: map<Wire, bool>)
    requires |queue| > 0 && |rest| >= |queue| - 1 && rest[..|queue| - 1] == queue[1..]
    requires queue[0] in next || queue[0] in rest[|queue| - 1..]
    requires next.Keys <= last.Keys && forall k :: 0 <= k < |rest| ==> rest[k] in last
    ensures forall k :: 0 <= k < |queue| ==> queue[k] in last
  {
    forall k | 0 <= k < |queue|
      ensures queue[k] in last
    {
      if k > 0 {
        assert queue[k] == rest[..|queue| - 1][k - 1];
      } else if queue[0] !in next {
        var j :| |queue| - 1 <= j < |rest| && rest[j] == queue[0];
      }
    }
  }

  /** The stored values are consistent with the circuit: the starting
      values are kept, every other stored wire is a gate's output equal
      to its operator applied to its inputs' stored values, and nothing
      queued is a starting wire. */
  ghost predicate Consistent(gates: map<Wire, Gate>, start: map<Wire, bool>, values: map<Wire, bool>, queue: seq<Wire>)
  {
    (forall w :: w in start ==> w in values && values[w] == start[w]) &&
    (forall w :: Computed(start, values, w) ==> Derived(gates, values, w)) &&
    (forall k :: 0 <= k < |queue| ==> queue[k] !in start)
  }

  /** `w` has a stored value that was not given at the start. */
  predicate Computed(start: map<Wire, bool>, values: map<Wire, bool>, w: Wire)
  {
    w in values && w !in start
  }

  /** The stored value of `w` is its gate applied to its inputs' stored
      values. */
  predicate Derived(gates: map<Wire, Gate>, values: map<Wire, bool>, w: Wire)
  {
    w in values && w in gates && gates[w].in1 in values && gates[w].in2 in values &&
    values[w] == Apply(gates[w].op, values[gates[w].in1], values[gates[w].in2])
  }

  /** A turn keeps the values consistent: a newly stored wire is derived
      from its inputs, and storing a wire again stores the value it
      already had. */
  lemma StepConsistent(gates: map<Wire, Gate>, start: map<Wire, bool>, values: map<Wire, bool>, queue: seq<Wire>)
    requires |queue| > 0 && Consistent(gates, start, values, queue)
    requires Step(gates, values, queue).Some?
    ensures Consistent(gates, start, Step(gates, values, queue).value.0, Step(gates, values, queue).value.1)
  {
    var w := queue[0];
    var g := gates[w];
    var (next, rest) := Step(gates, values, queue).value;
    if g.in1 in values && g.in2 in values && w in values {
      assert Computed(start, values, w);
      assert next == values;
    }
    forall v | Computed(start, next, v) ensures Derived(gates, next, v) {
      if v != w {
        assert Computed(start, values, v);
      }
    }
    forall k | 0 <= k < |rest| ensures rest[k] !in start {
      if k < |queue| - 1 {
        assert rest[k] == queue[k + 1];
      }
    }
  }

  lemma {:induction false} RunConsistent(gates: map<Wire, Gate>, start: map<Wire, bool>, values: map<Wire, bool>, queue: seq<Wire>, fuel: nat)
    requires Consistent(gates, start, values, queue)
    requires Run(gates, values, queue, fuel).Done?
    ensures Consistent(gates, start, Run(gates, values, queue, fuel).values, [])
    decreases fuel
  {
    if |queue| > 0 {
      StepConsistent(gates, start, values, queue);
      var (next, rest) := Step(gates, values, queue).value;
      RunConsistent(gates, start, next, rest, fuel - 1);
    }
  }

  /** The meaning of a wire: its starting value, or its gate applied to
      the meanings of its inputs, looking at most `fuel` gates deep. */
  function Eval(gates: map<Wire, Gate>, start: map<Wire, bool>, w: Wire, fuel: nat): Option<bool>
    decreases fuel
  {
    if w in start then Some(start[w])
    else if fuel == 0 || w !in gates then None
    else
      match (Eval(gates, start, gates[w].in1, fuel - 1), Eval(gates, start, gates[w].in2, fuel - 1))
      case (Some(a), Some(b)) => Some(Apply(gates[w].op, a, b))
      case _ => None
  }

  /** Consistent stored values agree with the circuit's meaning wherever
      that is defined. */
  lemma {:induction false} EvalAgrees(gates: map<Wire, Gate>, start: map<Wire, bool>, values: map<Wire, bool>, w: Wire, fuel: nat)
    requires Consistent(gates, start, values, []) && w in values
    requires Eval(gates, start, w, fuel).Some?
    ensures Eval(gates, start, w, fuel).value == values[w]
    decreases fuel
  {
    if w !in start {
      assert Computed(start, values, w);
      EvalAgrees(gates, start, values, gates[w].in1, fuel - 1);
      EvalAgrees(gates, start, values, gates[w].in2, fuel - 1);
    }
  }

  /** A starting-value line "x00: 1": the first three bytes name the
      wire and the last byte must be '0' or '1'. */
  function ParseValue(line: seq<char>): (r: Option<(Wire, bool)>)
    ensures r.Some? <==> |line| >= 3 && line[|line| - 1] in "01"
    ensures r.Some? ==> r.value == (WireAt(line, 0), line[|line| - 1] == '1')
  {
    if |line| < 3 then None
    else if line[|line| - 1] == '0' then Some((WireAt(line, 0), false))
    else if line[|line| - 1] == '1' then Some((WireAt(line, 0), true))
    else None
  }

  /** The operator named by byte 4 of a gate line. */
  function OpOf(b: char): (r: Option<Op>)
    ensures r.Some? <==> b in "AOX"
    ensures r.Some? ==> Name(r.value)[0] == b
  {
    if b == 'A' then Some(And) else if b == 'O' then Some(Or) else if b == 'X' then Some(Xor) else None
  }

  /** A gate line "in1 OP in2 -> out": the operator's length fixes where
      the second input and the output start. */
  function ParseGate(line: seq<char>): (r: Option<(Wire, Gate)>)
    ensures r.Some? <==> |line| >= 5 && OpOf(line[4]).Some? && |line| >= 15 + Len(OpOf(line[4]).value)
  {
    if |line| < 5 then None
    else
      match OpOf(line[4])
      case None => None
      case Some(op) =>
        var d := Len(op);
        if |line| < 15 + d then None
        else Some((WireAt(line, 12 + d), Gate(op, WireAt(line, 0), WireAt(line, 5 + d))))
  }

  function Spell(w: Wire): seq<char>
  {
    [w.first, w.second, w.third]
  }

  /** The line a gate is written as. */
  function GateLine(out: Wire, g: Gate): seq<char>
  {
    Spell(g.in1) + " " + Name(g.op) + " " + Spell(g.in2) + " -> " + Spell(out)
  }

  /** Parsing a gate line gives back the gate it was written from. */
  lemma ParseGateLine(out: Wire, g: Gate)
    ensures ParseGate(GateLine(out, g)) == Some((out, g))
  {
    var line := GateLine(out, g);
    var d := Len(g.op);
    assert |line| == 15 + d;
    assert line[4] == Name(g.op)[0];
    assert WireAt(line, 0) == g.in1;
    assert WireAt(line, 5 + d) == g.in2;
    assert WireAt(line, 12 + d) == out;
  }

  /** Inserting the pairs into a map in order: the keys are those of the
      pairs. */
  function Assign<V>(pairs: seq<(Wire, V)>): (r: map<Wire, V>)
    ensures forall key :: key in r <==> exists i :: 0 <= i < |pairs| && pairs[i].0 == key
  {
    if |pairs| == 0 then map[]
    else
      var front := pairs[..|pairs| - 1];
      var last := pairs[|pairs| - 1];
      var r := Assign(front)[last.0 := last.1];
      forall key | key in r
        ensures exists i :: 0 <= i < |pairs| && pairs[i].0 == key
      {
        if key != last.0 {
          var i :| 0 <= i < |front| && front[i].0 == key;
          assert pairs[i] == front[i];
        }
      }
      forall key, i | 0 <= i < |pairs| && pairs[i].0 == key
        ensures key in r
      {
        if i < |front| {
          assert front[i] == pairs[i];
        }
      }
      r
  }

  /** The value stored under a key is that of its last pair. */
  lemma {:induction false} AssignLast<V>(pairs: seq<(Wire, V)>, i: nat)
    requires i < |pairs| && forall j :: i < j < |pairs| ==> pairs[j].0 != pairs[i].0
    ensures pairs[i].0 in Assign(pairs) && Assign(pairs)[pairs[i].0] == pairs[i].1
  {
    var front := pairs[..|pairs| - 1];
    if i < |front| {
      assert pairs[|pairs| - 1].0 != pairs[i].0;
      forall j | i < j < |front|
        ensures front[j].0 != front[i].0
      {
        assert front[j] == pairs[j];
      }
      AssignLast(front, i);
    }
  }

  /** The starting values, later lines overwriting earlier ones; `None`
      where a line panics. */
  function Values(lines: seq<seq<char>>): (r: Option<map<Wire, bool>>)
    ensures r.Some? <==> forall k :: 0 <= k < |lines| ==> ParseValue(lines[k]).Some?
    ensures r.Some? ==> forall w :: w in r.value <==> exists k :: 0 <= k < |lines| && WireAt(lines[k], 0) == w
  {
    var parsed := seq(|lines|, k requires 0 <= k < |lines| => ParseValue(lines[k]));
    assert forall k :: 0 <= k < |lines| ==> parsed[k] == ParseValue(lines[k]);
    match Collect(parsed)
    case None => None
    case Some(pairs) =>
      assert forall k :: 0 <= k < |lines| ==> pairs[k].0 == WireAt(lines[k], 0);
      Some(Assign(pairs))
  }

  /** `outputs`: the output wires that start with 'z', in line order. */
  function ZOutputs(gates: seq<(Wire, Gate)>): (r: seq<Wire>)
    ensures |r| <= |gates| && forall k :: 0 <= k < |r| ==> r[k].first == 'z'
  {
    if |gates| == 0 then []
    else ZOutputs(gates[..|gates| - 1]) + (if gates[|gates| - 1].0.first == 'z' then [gates[|gates| - 1].0] else [])
  }

  /** The gates, later lines overwriting earlier ones, and `outputs`;
      `None` where a line panics. */
  function Gates(lines: seq<seq<char>>): (r: Option<(map<Wire, Gate>, seq<Wire>)>)
    ensures r.Some? <==> forall k :: 0 <= k < |lines| ==> ParseGate(lines[k]).Some?
    ensures r.Some? ==> forall w :: w in r.value.0 <==> exists k :: 0 <= k < |lines| && ParseGate(lines[k]).Some? && ParseGate(lines[k]).value.0 == w
    ensures r.Some? ==> |r.value.1| <= |lines| && forall k :: 0 <= k < |r.value.1| ==> r.value.1[k].first == 'z'
  {
    var parsed := seq(|lines|, k requires 0 <= k < |lines| => ParseGate(lines[k]));
    assert forall k :: 0 <= k < |lines| ==> parsed[k] == ParseGate(lines[k]);
    match Collect(parsed)
    case None => None
    case Some(pairs) => Some((Assign(pairs), ZOutputs(pairs)))
  }

  /** The index of the first empty line, which ends the starting values. */
  function Blank(lines: seq<seq<char>>): (r: nat)
    ensures r <= |lines|
    ensures forall k :: 0 <= k < r ==> |lines[k]| > 0
    ensures r < |lines| ==> |lines[r]| == 0
  {
    if |lines| == 0 then 0
    else if |lines[0]| == 0 then 0
    else 1 + Blank(lines[1..])
  }

  /** The parsed input: the starting values, the gates and `outputs`. */
  datatype Circuit = Circuit(start: map<Wire, bool>, gates: map<Wire, Gate>, outputs: seq<Wire>)

  /** The lines before the first empty one give the starting values and
      the lines after it the gates; `None` where a line panics. */
  function ParseCircuit(lines: seq<seq<char>>): (r: Option<Circuit>)
  {
    var b := Blank(lines);
    var start := Values(lines[..b]);
    var gates := Gates(if b < |lines| then lines[b + 1..] else []);
    if start.None? || gates.None? then None
    else Some(Circuit(start.value, gates.value.0, gates.value.1))
  }

  /** Every line before `b` is a starting value. */
  predicate ValueLines(lines: seq<seq<char>>, b: nat)
    requires b <= |lines|
  {
    forall k :: 0 <= k < b ==> ParseValue(lines[k]).Some?
  }

  /** Every line after `b` is a gate. */
  predicate GateLines(lines: seq<seq<char>>, b: nat)
  {
    forall k :: b < k < |lines| ==> ParseGate(lines[k]).Some?
  }

  /** The input parses exactly when every line before the first empty
      one is a starting value and every line after it is a gate. */
  lemma ParseCircuitLines(lines: seq<seq<char>>)
    ensures ParseCircuit(lines).Some? <==> ValueLines(lines, Blank(lines)) && GateLines(lines, Blank(lines))
  {
    var b := Blank(lines);
    ValuesLines(lines, b);
    GatesLines(lines, b);
  }

  lemma ValuesLines(lines: seq<seq<char>>, b: nat)
    requires b <= |lines|
    ensures Values(lines[..b]).Some? <==> ValueLines(lines, b)
  {
    assert forall k :: 0 <= k < b ==> lines[..b][k] == lines[k];
  }

  lemma GatesLines(lines: seq<seq<char>>, b: nat)
    requires b <= |lines|
    ensures Gates(if b < |lines| then lines[b + 1..] else []).Some? <==> GateLines(lines, b)
  {
    var tail := if b < |lines| then lines[b + 1..] else [];
    assert forall k :: b < k < |lines| ==> tail[k - b - 1] == lines[k];
  }

  /** Part one on a parsed circuit, for at most `fuel` turns of `run`:
      `None` where the source panics or the fuel runs out. The labels
      built are those of wires 0 to `len - 1`, so up to 2080 output
      wires the tens byte stays within a `u8`. Once `run` stops,
      `get_output` never panics. */
  function Evaluate(c: Circuit, fuel: nat): (r: Option<nat>)
    ensures r.Some? <==> |c.outputs| <= 2080 && Run(c.gates, c.start, Outputs(|c.outputs|), fuel).Done?
  {
    var len := |c.outputs|;
    if len > 2080 then None
    else
      match Run(c.gates, c.start, Outputs(len), fuel)
      case Done(values) =>
        assert forall i :: 0 <= i < len ==> Outputs(len)[i] in values;
        GetOutput(values, len)
      case Panic => None
      case Unfinished => None
  }

  /** `part1`: parse the circuit, run it and read the `z` wires. Defined
      exactly when the lines parse and the run stops without a panic, and
      then a number with one bit per output line. */
  function Part1(input: seq<char>, fuel: nat): (r: Option<nat>)
    ensures var c := ParseCircuit(Text.Split(input, '\n'));
      r.Some? <==> c.Some? && |c.value.outputs| <= 2080 && Run(c.value.gates, c.value.start, Outputs(|c.value.outputs|), fuel).Done?
    ensures r.Some? ==> r.value < Pow2(|ParseCircuit(Text.Split(input, '\n')).value.outputs|)
  {
    match ParseCircuit(Text.Split(input, '\n'))
    case None => None
    case Some(c) =>
      var r := Evaluate(c, fuel);
      if r.Some? then EvaluateMeaning(c, fuel); r else r
  }

  /** What part one computes: a number below 2^len, where `len` is the
      number of output lines, whose bit `i` is the meaning of `zNN`
      wherever that meaning is defined, so long as no output wire also
      has a starting value. */
  lemma EvaluateMeaning(c: Circuit, fuel: nat)
    requires Evaluate(c, fuel).Some?
    ensures Evaluate(c, fuel).value < Pow2(|c.outputs|)
    ensures (forall i :: 0 <= i < |c.outputs| ==> Label('z', i) !in c.start) ==>
      forall i, depth: nat :: 0 <= i < |c.outputs| && Eval(c.gates, c.start, Label('z', i), depth).Some? ==>
        (Bit(Evaluate(c, fuel).value, i) == 1 <==> Eval(c.gates, c.start, Label('z', i), depth).value)
  {
    var len := |c.outputs|;
    var values := Run(c.gates, c.start, Outputs(len), fuel).values;
    GetOutputNumber(values, len);
    var bits := ReadBits(values, 'z', len).value;
    var n := Evaluate(c, fuel).value;
    if forall i :: 0 <= i < len ==> Label('z', i) !in c.start {
      RunConsistent(c.gates, c.start, c.start, Outputs(len), fuel);
      forall i, depth: nat | 0 <= i < len && Eval(c.gates, c.start, Label('z', i), depth).Some?
        ensures Bit(n, i) == 1 <==> Eval(c.gates, c.start, Label('z', i), depth).value
      {
        EvalAgrees(c.gates, c.start, values, Label('z', i), depth);
        NumberBit(bits, i);
      }
    }
  }
}
