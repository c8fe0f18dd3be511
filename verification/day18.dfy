/** Day 18: bytes fall onto a square memory grid, one `col,row` line at a
    time. Part one marks the first bytes and finds the fewest steps from
    the top-left corner to the bottom-right one; part two bisects over the
    number of fallen bytes for the first byte that cuts the corners
    apart. Both searches are the shared lazy-deletion Dijkstra with unit
    steps. */
module Day18 {
  import opened Common
  import opened ShortestPath
  import Decimal
  import Text

  /** `usize_from_bytes`: place-value parsing with a three-entry power
      table, so a longer field would index past the table and panic. */
  function UsizeFromBytes(bs: seq<char>): (n: nat)
    requires |bs| <= 3
    ensures Decimal.IsDecimalText(bs) ==> n == Decimal.Parse(bs) < 1000
  {
    if Decimal.IsDecimalText(bs) then
      Decimal.PlaceValueWithin(bs, 3);
      assert Decimal.Pow10(3) == 1000;
      Decimal.PlaceValue(bs)
    else Decimal.PlaceValue(bs)
  }

  // ----- the grid -----

  /** The in-grid orthogonal neighbours of an in-grid position, in the
      order `next` tries them: up, down, left, right. */
  function Around(size: nat, pos: Pos): (r: seq<Pos>)
    requires InBounds(pos, size, size)
    ensures |r| <= 4
    ensures forall q :: q in r <==> InBounds(q, size, size) && Manhattan(pos, q) == 1
  {
    var r := (if pos.0 > 0 then [(pos.0 - 1, pos.1)] else []) +
             (if pos.0 < size - 1 then [(pos.0 + 1, pos.1)] else []) +
             (if pos.1 > 0 then [(pos.0, pos.1 - 1)] else []) +
             (if pos.1 < size - 1 then [(pos.0, pos.1 + 1)] else []);
    assert forall q :: InBounds(q, size, size) && Manhattan(pos, q) == 1 ==> q in r by {
      forall q | InBounds(q, size, size) && Manhattan(pos, q) == 1
        ensures q in r
      {
        if q.0 == pos.0 - 1 {
          assert q == (pos.0 - 1, pos.1);
        } else if q.0 == pos.0 + 1 {
          assert q == (pos.0 + 1, pos.1);
        } else if q.1 == pos.1 - 1 {
          assert q == (pos.0, pos.1 - 1);
        } else {
          assert q == (pos.0, pos.1 + 1);
        }
      }
    }
    r
  }

  /** `row * grid_size + col`: the cell's slot in a row-major table. */
  function Index(size: nat, p: Pos): (ix: nat)
    requires InBounds(p, size, size)
    ensures ix < size * size
  {
    RowIndexBound(p.0, p.1, size, size);
    p.0 * size + p.1
  }

  /** `next`: the neighbours whose flag is 0. */
  function Next(size: nat, flags: seq<nat>, pos: Pos): (r: seq<Pos>)
    requires |flags| == size * size && InBounds(pos, size, size)
    ensures |r| <= 4
    ensures forall q :: q in r <==> InBounds(q, size, size) && Manhattan(pos, q) == 1 && flags[Index(size, q)] == 0
  {
    Clear(size, flags, Around(size, pos))
  }

  function Clear(size: nat, flags: seq<nat>, qs: seq<Pos>): (r: seq<Pos>)
    requires |flags| == size * size && forall q :: q in qs ==> InBounds(q, size, size)
    ensures |r| <= |qs|
    ensures forall q :: q in r <==> q in qs && flags[Index(size, q)] == 0
  {
    if |qs| == 0 then []
    else
      var rest := Clear(size, flags, qs[1..]);
      if flags[Index(size, qs[0])] == 0 then [qs[0]] + rest else rest
  }

  /** `next2`, over the table of first-fall times: the neighbours still
      open after the bytes numbered 0 to `num` have fallen. */
  function Next2(size: nat, times: seq<Option<nat>>, num: nat, pos: Pos): (r: seq<Pos>)
    requires |times| == size * size && InBounds(pos, size, size)
    ensures |r| <= 4
    ensures forall q :: q in r <==> InBounds(q, size, size) && Manhattan(pos, q) == 1 && OpenAt(times[Index(size, q)], num)
  {
    Later(size, times, num, Around(size, pos))
  }

  /** A cell is open after byte `num` when no byte has hit it or the
      first one to hit it comes later. */
  predicate OpenAt(time: Option<nat>, num: nat)
  {
    time.None? || time.value > num
  }

  function Later(size: nat, times: seq<Option<nat>>, num: nat, qs: seq<Pos>): (r: seq<Pos>)
    requires |times| == size * size && forall q :: q in qs ==> InBounds(q, size, size)
    ensures |r| <= |qs|
    ensures forall q :: q in r <==> q in qs && OpenAt(times[Index(size, q)], num)
  {
    if |qs| == 0 then []
    else
      var rest := Later(size, times, num, qs[1..]);
      if OpenAt(times[Index(size, qs[0])], num) then [qs[0]] + rest else rest
  }

  /** Unit steps to each position. */
  function Moves(qs: seq<Pos>): (r: seq<Edge<Pos>>)
    ensures |r| == |qs|
    ensures forall e :: e in r <==> e.cost == 1 && e.target in qs
  {
    if |qs| == 0 then [] else [Edge(1, qs[0])] + Moves(qs[1..])
  }

  /** The search graph of part one: unit steps to clear neighbours. */
  function Graph(size: nat, flags: seq<nat>): Pos -> Option<seq<Edge<Pos>>>
    requires |flags| == size * size
  {
    p => if InBounds(p, size, size) then Some(Moves(Next(size, flags, p))) else None
  }

  /** The search graph of part two after byte `num`. */
  function Graph2(size: nat, times: seq<Option<nat>>, num: nat): Pos -> Option<seq<Edge<Pos>>>
    requires |times| == size * size
  {
    p => if InBounds(p, size, size) then Some(Moves(Next2(size, times, num, p))) else None
  }

  /** A graph on the grid: every in-grid position has its edges, and
      each is one step to an orthogonal in-grid neighbour. */
  ghost predicate GridGraph(size: nat, graph: Pos -> Option<seq<Edge<Pos>>>)
  {
    forall p :: InBounds(p, size, size) ==>
      graph(p).Some? &&
      forall e :: e in graph(p).value ==> e.cost == 1 && InBounds(e.target, size, size) && Manhattan(p, e.target) == 1
  }

  lemma GraphOnGrid(size: nat, flags: seq<nat>)
    requires |flags| == size * size
    ensures GridGraph(size, Graph(size, flags))
  {
  }

  lemma Graph2OnGrid(size: nat, times: seq<Option<nat>>, num: nat)
    requires |times| == size * size
    ensures GridGraph(size, Graph2(size, times, num))
  {
  }

  ghost function Universe(size: nat): set<Pos>
  {
    GridPositions(size, size)
  }

  lemma GridClosed(size: nat, graph: Pos -> Option<seq<Edge<Pos>>>)
    requires GridGraph(size, graph)
    ensures Closed(graph, Universe(size), 1)
    ensures forall p :: p in Universe(size) <==> InBounds(p, size, size)
  {
    forall p | InBounds(p, size, size)
      ensures p in Universe(size)
    {
      assert p == (p.0, p.1);
    }
  }

  /** A walk on a grid graph moves one cell a step, so its cost is its
      length and it never leaves the grid. */
  lemma {:induction false} GridWalk(size: nat, graph: Pos -> Option<seq<Edge<Pos>>>, start: Pos, steps: seq<Edge<Pos>>)
    requires GridGraph(size, graph) && InBounds(start, size, size) && Walk(graph, start, steps)
    ensures Cost(steps) == |steps|
    ensures InBounds(EndOf(start, steps), size, size)
    decreases |steps|
  {
    if |steps| > 0 {
      var init := steps[..|steps| - 1];
      GridWalk(size, graph, start, init);
      var u := EndOf(start, init);
      assert graph(u).Some? && steps[|steps| - 1] in graph(u).value;
    }
  }

  /** The bottom-right corner is reachable from the top-left one. */
  ghost predicate Connected(size: nat, graph: Pos -> Option<seq<Edge<Pos>>>)
    requires size >= 1
  {
    exists steps :: Walk(graph, (0, 0), steps) && EndOf((0, 0), steps) == (size - 1, size - 1)
  }

  /** `dijkstra` and `dijkstra2` on a grid graph: from (0, 0) to
      (size - 1, size - 1), the fewest steps, or `Unreachable`. Setting
      the start's distance in an empty table panics. */
  method Search(size: nat, graph: Pos -> Option<seq<Edge<Pos>>>) returns (r: Outcome)
    requires GridGraph(size, graph)
    ensures r.Panicked? <==> size == 0
    ensures r.Found? ==> size >= 1 && Reaches(graph, (0, 0), (size - 1, size - 1), r.cost)
    ensures r.Found? ==> forall steps :: Walk(graph, (0, 0), steps) && EndOf((0, 0), steps) == (size - 1, size - 1) ==>
      r.cost <= |steps|
    ensures r.Found? ==> Connected(size, graph)
    ensures r.Unreachable? ==> size >= 1 && !Connected(size, graph)
  {
    if size == 0 {
      return Panicked;
    }
    GridClosed(size, graph);
    r := Shortest(graph, (0, 0), (size - 1, size - 1), Universe(size), 1);
    if r.Panicked? {
      ghost var steps :| Walk(graph, (0, 0), steps) && graph(EndOf((0, 0), steps)).None?;
      GridWalk(size, graph, (0, 0), steps);
      assert false;
    }
    forall steps | Walk(graph, (0, 0), steps)
      ensures Cost(steps) == |steps|
    {
      GridWalk(size, graph, (0, 0), steps);
    }
  }

  // ----- reading the bytes -----

  /** One line `col,row`; `None` where an `unwrap` or the power table
      panics. A third field is ignored. */
  function ByteOf(line: seq<char>): (r: Option<(nat, nat)>)
    ensures r.Some? <==> var f := Text.Split(line, ','); |f| >= 2 && |f[0]| <= 3 && |f[1]| <= 3
  {
    var f := Text.Split(line, ',');
    if |f| >= 2 && |f[0]| <= 3 && |f[1]| <= 3 then
      Some((UsizeFromBytes(f[0]), UsizeFromBytes(f[1])))
    else None
  }

  /** A byte written `col,row`, as `part2` formats its answer. */
  function Show(b: (nat, nat)): seq<char>
  {
    Decimal.DecimalString(b.0) + "," + Decimal.DecimalString(b.1)
  }

  /** A byte inside the largest grid the parser can address reads back
      from its written form. */
  lemma ByteRoundTrip(col: nat, row: nat)
    requires col < 1000 && row < 1000
    ensures ByteOf(Show((col, row))) == Some((col, row))
  {
    var dc, dr := Decimal.DecimalString(col), Decimal.DecimalString(row);
    FieldRoundTrip(col);
    FieldRoundTrip(row);
    assert Text.Join([dc, dr], ',') == dc + "," + dr by {
      assert [dc, dr][..1] == [dc];
    }
    Text.SplitJoin([dc, dr], ',');
  }

  /** One coordinate below 1000 is written in at most three digits, holds
      no comma, and reads back. */
  lemma FieldRoundTrip(n: nat)
    requires n < 1000
    ensures var d := Decimal.DecimalString(n);
      |d| <= 3 && ',' !in d && UsizeFromBytes(d) == n
  {
    var d := Decimal.DecimalString(n);
    assert Decimal.Pow10(3) == 1000;
    Decimal.DigitsWithin(n, 3);
    Decimal.ParseDecimalString(n);
    assert ',' !in d by {
      assert forall k :: 0 <= k < |d| ==> Decimal.IsDigitChar(d[k]);
    }
  }

  /** The bytes on the lines, in order; `None` if any line panics. */
  function Bytes(lines: seq<seq<char>>): (r: Option<seq<(nat, nat)>>)
    ensures r.Some? <==> forall k :: 0 <= k < |lines| ==> ByteOf(lines[k]).Some?
    ensures r.Some? ==> |r.value| == |lines| && forall k :: 0 <= k < |lines| ==> r.value[k] == ByteOf(lines[k]).value
  {
    var os := seq(|lines|, k requires 0 <= k < |lines| => ByteOf(lines[k]));
    assert forall k :: 0 <= k < |lines| ==> os[k] == ByteOf(lines[k]);
    Collect(os)
  }

  /** `row * grid_size + col`: where a byte lands in the table. */
  function Slot(size: nat, b: (nat, nat)): nat
  {
    b.1 * size + b.0
  }

  /** A byte at (col, row) inside the grid lands on cell (row, col). */
  lemma SlotIsIndex(size: nat, b: (nat, nat))
    requires b.0 < size && b.1 < size
    ensures Slot(size, b) == Index(size, (b.1, b.0))
  {
  }

  /** Some byte among `bytes[..n]` lands on slot `ix`. */
  predicate Hit(size: nat, bytes: seq<(nat, nat)>, n: nat, ix: nat)
    requires n <= |bytes|
  {
    exists k :: 0 <= k < n && Slot(size, bytes[k]) == ix
  }

  // ----- part one -----

  /** The part-one table after the bytes fall: 1 on a slot a byte hits,
      0 elsewhere; `None` when a write lands past the table. */
  function Flags(size: nat, bytes: seq<(nat, nat)>): (r: Option<seq<nat>>)
    ensures r.Some? <==> forall k :: 0 <= k < |bytes| ==> Slot(size, bytes[k]) < size * size
    ensures r.Some? ==> |r.value| == size * size
    decreases |bytes|
  {
    if |bytes| == 0 then Some(seq(size * size, _ => 0))
    else
      var last := bytes[|bytes| - 1];
      var front := Flags(size, bytes[..|bytes| - 1]);
      assert forall k :: 0 <= k < |bytes| - 1 ==> bytes[..|bytes| - 1][k] == bytes[k];
      if front.Some? && Slot(size, last) < size * size then Some(front.value[Slot(size, last) := 1]) else None
  }

  /** A slot's flag is 1 exactly when one of the bytes lands on it. */
  lemma {:induction false} FlagsMark(size: nat, bytes: seq<(nat, nat)>, ix: nat)
    requires Flags(size, bytes).Some? && ix < size * size
    ensures Flags(size, bytes).value[ix] == if Hit(size, bytes, |bytes|, ix) then 1 else 0
    decreases |bytes|
  {
    if |bytes| > 0 {
      var init := bytes[..|bytes| - 1];
      FlagsMark(size, init, ix);
      assert forall k :: 0 <= k < |init| ==> init[k] == bytes[k];
      if Hit(size, bytes, |bytes|, ix) && !Hit(size, init, |init|, ix) {
        var k :| 0 <= k < |bytes| && Slot(size, bytes[k]) == ix;
        assert k == |bytes| - 1;
      }
    }
  }

  /** `part1_with_parameters`: the first `steps` lines are bytes that
      fall; the answer is the fewest steps from corner to corner around
      them. `None` where the source panics: a line without two short
      fields, a byte past the table, an empty grid, or no way through. */
  method Part1WithParameters(input: seq<char>, size: nat, steps: nat) returns (r: Option<nat>)
    ensures var lines := Text.Split(input, '\n'); var n := if steps < |lines| then steps else |lines|;
      var bytes := Bytes(lines[..n]);
      r.Some? <==>
        (bytes.Some? && Flags(size, bytes.value).Some? && size >= 1 && Connected(size, Graph(size, Flags(size, bytes.value).value)))
    ensures var lines := Text.Split(input, '\n'); var n := if steps < |lines| then steps else |lines|;
      r.Some? ==> var g := Graph(size, Flags(size, Bytes(lines[..n]).value).value);
        Reaches(g, (0, 0), (size - 1, size - 1), r.value) &&
        forall steps :: Walk(g, (0, 0), steps) && EndOf((0, 0), steps) == (size - 1, size - 1) ==> r.value <= |steps|
  {
    var lines := Text.Split(input, '\n');
    var n := if steps < |lines| then steps else |lines|;
    var bytes := Bytes(lines[..n]);
    if bytes.None? {
      return None;
    }
    var flags := Flags(size, bytes.value);
    if flags.None? {
      return None;
    }
    GraphOnGrid(size, flags.value);
    var outcome := Search(size, Graph(size, flags.value));
    if outcome.Found? {
      r := Some(outcome.cost);
    } else {
      r := None;
    }
  }

  /** `part1`: the same on the 71 by 71 grid after 1024 bytes. */
  method Part1(input: seq<char>) returns (r: Option<nat>)
    ensures var lines := Text.Split(input, '\n'); var n := if 1024 < |lines| then 1024 else |lines|;
      var bytes := Bytes(lines[..n]);
      r.Some? <==> (bytes.Some? && Flags(71, bytes.value).Some? && Connected(71, Graph(71, Flags(71, bytes.value).value)))
    ensures var lines := Text.Split(input, '\n'); var n := if 1024 < |lines| then 1024 else |lines|;
      r.Some? ==> (Bytes(lines[..n]).Some? && Flags(71, Bytes(lines[..n]).value).Some? &&
        var g := Graph(71, Flags(71, Bytes(lines[..n]).value).value);
        Reaches(g, (0, 0), (70, 70), r.value) &&
        forall steps :: Walk(g, (0, 0), steps) && EndOf((0, 0), steps) == (70, 70) ==> r.value <= |steps|)
  {
    r := Part1WithParameters(input, 71, 1024);
  }

  // ----- part two -----

  /** The part-two table as the source fills it: a cell's entry is set to
      the number of the byte landing on it while the entry is still 0,
      so a cell no byte hits keeps 0, and so does the cell byte 0 hits
      until another byte lands there. */
  function TableAsWritten(size: nat, bytes: seq<(nat, nat)>): (r: Option<seq<nat>>)
    ensures r.Some? <==> forall k :: 0 <= k < |bytes| ==> Slot(size, bytes[k]) < size * size
    ensures r.Some? ==> |r.value| == size * size
    decreases |bytes|
  {
    if |bytes| == 0 then Some(seq(size * size, _ => 0))
    else
      var ix := Slot(size, bytes[|bytes| - 1]);
      var front := TableAsWritten(size, bytes[..|bytes| - 1]);
      assert forall k :: 0 <= k < |bytes| - 1 ==> bytes[..|bytes| - 1][k] == bytes[k];
      if front.Some? && ix < size * size then
        Some(if front.value[ix] == 0 then front.value[ix := |bytes| - 1] else front.value)
      else None
  }

  /** The source's table read by `next2`, which keeps an entry exactly
      when it exceeds `num`. */
  function Lift(table: seq<nat>): (r: seq<Option<nat>>)
    ensures |r| == |table| && forall ix :: 0 <= ix < |table| ==> r[ix] == Some(table[ix])
  {
    seq(|table|, ix requires 0 <= ix < |table| => Some(table[ix]))
  }

  /** As written, a cell no byte ever hits holds 0, so `next2` treats it
      as fallen before every byte: free cells are never entered. */
  lemma {:induction false} AsWrittenBlocksFree(size: nat, bytes: seq<(nat, nat)>, ix: nat, num: nat)
    requires TableAsWritten(size, bytes).Some? && ix < size * size && !Hit(size, bytes, |bytes|, ix)
    ensures !OpenAt(Lift(TableAsWritten(size, bytes).value)[ix], num)
    decreases |bytes|
  {
    if |bytes| > 0 {
      var init := bytes[..|bytes| - 1];
      assert forall k :: 0 <= k < |init| ==> init[k] == bytes[k];
      assert Slot(size, bytes[|bytes| - 1]) != ix;
      AsWrittenBlocksFree(size, init, ix, num);
    }
  }

  /** On a 2-by-2 grid with the one byte `0,1`, after that byte has
      fallen the as-written table lets no step out of the start, while
      the cell (0, 1) is free. */
  lemma AsWrittenCounterexample(size: nat, bytes: seq<(nat, nat)>, num: nat)
    requires size == 2 && bytes == [(0, 1)] && num == 1
    ensures TableAsWritten(size, bytes).Some? && FirstFall(size, bytes).Some?
    ensures Next2(size, Lift(TableAsWritten(size, bytes).value), num, (0, 0)) == []
    ensures Next2(size, FirstFall(size, bytes).value, num, (0, 0)) == [(0, 1)]
  {
    var none: seq<(nat, nat)> := [];
    assert bytes[..0] == none;
    assert Slot(size, bytes[0]) == 2 && size * size == 4;
    assert TableAsWritten(size, none) == Some(seq(4, _ => 0));
    var t := TableAsWritten(size, bytes).value;
    assert t == seq(4, _ => 0)[2 := 0];
    assert t == [0, 0, 0, 0];
    assert FirstFall(size, none) == Some(seq(4, _ => None));
    var f := FirstFall(size, bytes).value;
    assert f == seq(4, _ => None)[2 := Some(0)];
    assert f == [None, None, Some(0), None];
    var around := Around(size, (0, 0));
    assert around == [(1, 0), (0, 1)];
    assert Index(size, (1, 0)) == 2 && Index(size, (0, 1)) == 1;
    assert around[1..] == [(0, 1)] && around[1..][1..] == [];
    assert Lift(t)[1] == Some(0) && Lift(t)[2] == Some(0);
    assert Later(size, Lift(t), num, around[1..][1..]) == [];
    assert Later(size, Lift(t), num, around[1..]) == [];
    assert Later(size, Lift(t), num, around) == [];
    assert Later(size, f, num, around[1..]) == [(0, 1)];
  }

  /** The table `next2` is evidently meant to read: each cell's entry is
      the number of the first byte landing on it, `None` if none does. */
  function FirstFall(size: nat, bytes: seq<(nat, nat)>): (r: Option<seq<Option<nat>>>)
    ensures r.Some? <==> forall k :: 0 <= k < |bytes| ==> Slot(size, bytes[k]) < size * size
    ensures r.Some? ==> |r.value| == size * size
    decreases |bytes|
  {
    if |bytes| == 0 then Some(seq(size * size, _ => None))
    else
      var ix := Slot(size, bytes[|bytes| - 1]);
      var front := FirstFall(size, bytes[..|bytes| - 1]);
      assert forall k :: 0 <= k < |bytes| - 1 ==> bytes[..|bytes| - 1][k] == bytes[k];
      if front.Some? && ix < size * size then
        Some(if front.value[ix].None? then front.value[ix := Some(|bytes| - 1)] else front.value)
      else None
  }

  /** The first-fall entry of a cell names the first byte landing there. */
  lemma {:induction false} FirstFallIsFirst(size: nat, bytes: seq<(nat, nat)>, ix: nat)
    requires FirstFall(size, bytes).Some? && ix < size * size
    ensures var t := FirstFall(size, bytes).value[ix];
      (t.None? <==> !Hit(size, bytes, |bytes|, ix)) &&
      (t.Some? ==> t.value < |bytes| && Slot(size, bytes[t.value]) == ix && !Hit(size, bytes, t.value, ix))
    decreases |bytes|
  {
    if |bytes| > 0 {
      var init := bytes[..|bytes| - 1];
      FirstFallIsFirst(size, init, ix);
      assert forall k :: 0 <= k < |init| ==> init[k] == bytes[k];
      if Hit(size, bytes, |bytes|, ix) && !Hit(size, init, |init|, ix) {
        var k :| 0 <= k < |bytes| && Slot(size, bytes[k]) == ix;
        assert k == |bytes| - 1;
      }
      var t := FirstFall(size, init).value[ix];
      if t.Some? {
        assert !Hit(size, init, t.value, ix);
        assert !Hit(size, bytes, t.value, ix) by {
          forall k | 0 <= k < t.value
            ensures Slot(size, bytes[k]) != ix
          {
            assert Slot(size, init[k]) != ix;
          }
        }
      }
    }
  }

  /** A cell is open after byte `num` exactly when none of the bytes
      numbered up to `num` lands on it. */
  lemma OpenIffClear(size: nat, bytes: seq<(nat, nat)>, ix: nat, num: nat)
    requires FirstFall(size, bytes).Some? && ix < size * size
    ensures OpenAt(FirstFall(size, bytes).value[ix], num) <==>
      forall k :: 0 <= k < |bytes| && k <= num ==> Slot(size, bytes[k]) != ix
  {
    FirstFallIsFirst(size, bytes, ix);
    var t := FirstFall(size, bytes).value[ix];
    if t.Some? && t.value > num {
      forall k | 0 <= k < |bytes| && k <= num
        ensures Slot(size, bytes[k]) != ix
      {
        assert k < t.value;
      }
    }
  }

  /** More fallen bytes never open a cell: a walk after byte `later`
      is a walk after any earlier byte. */
  lemma {:induction false} FewerBytesWalk(size: nat, times: seq<Option<nat>>, earlier: nat, later: nat,
                                          start: Pos, steps: seq<Edge<Pos>>)
    requires |times| == size * size && earlier <= later
    requires Walk(Graph2(size, times, later), start, steps)
    ensures Walk(Graph2(size, times, earlier), start, steps)
    decreases |steps|
  {
    if |steps| > 0 {
      var init := steps[..|steps| - 1];
      FewerBytesWalk(size, times, earlier, later, start, init);
      var u, e := EndOf(start, init), steps[|steps| - 1];
      assert e in Moves(Next2(size, times, later, u));
      assert e.target in Next2(size, times, later, u);
      assert e in Moves(Next2(size, times, earlier, u));
    }
  }

  lemma ConnectedEarlier(size: nat, times: seq<Option<nat>>, earlier: nat, later: nat)
    requires |times| == size * size && size >= 1 && earlier <= later
    requires Connected(size, Graph2(size, times, later))
    ensures Connected(size, Graph2(size, times, earlier))
  {
    var steps :| Walk(Graph2(size, times, later), (0, 0), steps) && EndOf((0, 0), steps) == (size - 1, size - 1);
    FewerBytesWalk(size, times, earlier, later, (0, 0), steps);
  }

  /** The corners are still connected after byte `num`. */
  ghost predicate Passable(size: nat, times: seq<Option<nat>>, num: nat)
    requires |times| == size * size && size >= 1
  {
    Connected(size, Graph2(size, times, num))
  }

  /** `dijkstra2` as the bisection asks it: is there still a way through
      after byte `num`? */
  method Probe(size: nat, times: seq<Option<nat>>, num: nat) returns (passable: bool)
    requires |times| == size * size && size >= 1
    ensures passable <==> Passable(size, times, num)
  {
    Graph2OnGrid(size, times, num);
    var outcome := Search(size, Graph2(size, times, num));
    passable := outcome.Found?;
  }

  /** The byte number the bisection of `part2_with_parameters` settles
      on: a number from 1 up to the last slot (0 only on a one-cell grid)
      that is the last slot or cuts the corners apart, with every number
      from 1 below it leaving them connected. */
  ghost predicate Settled(size: nat, times: seq<Option<nat>>, bad: nat)
    requires |times| == size * size && size >= 1
  {
    bad <= size * size - 1 && (bad >= 1 || size == 1) &&
    (bad == size * size - 1 || !Passable(size, times, bad)) &&
    forall k :: 1 <= k < bad ==> Passable(size, times, k)
  }

  /** Because connection only gets lost as bytes fall, at most one number
      is settled on. */
  lemma SettledUnique(size: nat, times: seq<Option<nat>>, b1: nat, b2: nat)
    requires |times| == size * size && size >= 1
    requires Settled(size, times, b1) && Settled(size, times, b2)
    ensures b1 == b2
  {
  }

  /** The answer of the bisection: the byte numbered by the settled
      number, when the input has that many bytes. */
  ghost predicate Answers(size: nat, times: seq<Option<nat>>, bytes: seq<(nat, nat)>, b: (nat, nat))
    requires |times| == size * size
  {
    size >= 1 && exists bad: nat :: Settled(size, times, bad) && bad < |bytes| && b == bytes[bad]
  }

  /** There is at most one answer. */
  lemma AnswersUnique(size: nat, times: seq<Option<nat>>, bytes: seq<(nat, nat)>, b1: (nat, nat), b2: (nat, nat))
    requires |times| == size * size
    requires Answers(size, times, bytes, b1) && Answers(size, times, bytes, b2)
    ensures b1 == b2
  {
    var bad1: nat :| Settled(size, times, bad1) && bad1 < |bytes| && b1 == bytes[bad1];
    var bad2: nat :| Settled(size, times, bad2) && bad2 < |bytes| && b2 == bytes[bad2];
    SettledUnique(size, times, bad1, bad2);
  }

  /** The bisection of `part2_with_parameters` over byte numbers, with
      `dijkstra2` as its oracle: `good` starts at 0 and `bad` at the last
      cell's slot, and the gap halves until they are adjacent. The
      answer is the byte numbered `bad`, the first found to cut the
      corners apart. `None` exactly where the source panics: an empty
      grid (`corrupted.len() - 1` underflows), or no byte with that
      number. */
  method Bisect(size: nat, times: seq<Option<nat>>, bytes: seq<(nat, nat)>) returns (r: Option<(nat, nat)>, bad: nat)
    requires |times| == size * size
    ensures size >= 1 ==> Settled(size, times, bad)
    ensures r.None? <==> size == 0 || bad >= |bytes|
    ensures r.Some? ==> bad < |bytes| && r.value == bytes[bad]
  {
    if size == 0 {
      return None, 0;
    }
    var last: nat := size * size - 1;
    var good: nat := 0;
    bad := last;
    while bad - good > 1
      invariant good <= bad <= last && (bad == 0 || good < bad)
      invariant bad >= 1 || last == 0
      invariant good == 0 || Passable(size, times, good)
      invariant bad == last || !Passable(size, times, bad)
      decreases bad - good
    {
      var mid := good + (bad - good) / 2;
      var passable := Probe(size, times, mid);
      if passable {
        good := mid;
      } else {
        bad := mid;
      }
    }
    forall k | 1 <= k < bad
      ensures Passable(size, times, k)
    {
      assert good == bad - 1 && good >= 1;
      ConnectedEarlier(size, times, k, good);
    }
    if bad >= |bytes| {
      return None, bad;
    }
    r := Some(bytes[bad]);
  }

  /** A bisection over a table gives `Some` exactly when the table has an
      answer, and then that answer. */
  lemma BisectAnswers(size: nat, times: seq<Option<nat>>, bytes: seq<(nat, nat)>, r: Option<(nat, nat)>, bad: nat)
    requires |times| == size * size
    requires size >= 1 ==> Settled(size, times, bad)
    requires r.None? <==> size == 0 || bad >= |bytes|
    requires r.Some? ==> bad < |bytes| && r.value == bytes[bad]
    ensures r.Some? <==> exists b :: Answers(size, times, bytes, b)
    ensures r.Some? ==> Answers(size, times, bytes, r.value)
  {
    if r.Some? {
      assert Answers(size, times, bytes, r.value);
    } else if size >= 1 {
      forall b | Answers(size, times, bytes, b)
        ensures false
      {
        var other: nat :| Settled(size, times, other) && other < |bytes| && b == bytes[other];
        SettledUnique(size, times, bad, other);
      }
    }
  }

  /** `part2_with_parameters` as written: every line is a byte, each
      must land inside the grid, the table is filled as the source fills
      it, and the answer is the byte the bisection settles on; `None`
      exactly where the source panics. */
  method Part2WithParameters(input: seq<char>, size: nat) returns (r: Option<(nat, nat)>)
    ensures var bytes := Bytes(Text.Split(input, '\n'));
      r.Some? <==> (bytes.Some? && TableAsWritten(size, bytes.value).Some? &&
        exists b :: Answers(size, Lift(TableAsWritten(size, bytes.value).value), bytes.value, b))
    ensures var bytes := Bytes(Text.Split(input, '\n'));
      r.Some? ==> (bytes.Some? && TableAsWritten(size, bytes.value).Some? &&
        Answers(size, Lift(TableAsWritten(size, bytes.value).value), bytes.value, r.value))
  {
    var bytes := Bytes(Text.Split(input, '\n'));
    if bytes.None? {
      return None;
    }
    var table := TableAsWritten(size, bytes.value);
    if table.None? {
      return None;
    }
    var bad;
    r, bad := Bisect(size, Lift(table.value), bytes.value);
    BisectAnswers(size, Lift(table.value), bytes.value, r, bad);
  }

  /** The same search on the first-fall table: the answer is the byte the
      bisection settles on when every free cell stays open. */
  method Part2WithParametersIntended(input: seq<char>, size: nat) returns (r: Option<(nat, nat)>)
    ensures var bytes := Bytes(Text.Split(input, '\n'));
      r.Some? <==> (bytes.Some? && FirstFall(size, bytes.value).Some? &&
        exists b :: Answers(size, FirstFall(size, bytes.value).value, bytes.value, b))
    ensures var bytes := Bytes(Text.Split(input, '\n'));
      r.Some? ==> (bytes.Some? && FirstFall(size, bytes.value).Some? &&
        Answers(size, FirstFall(size, bytes.value).value, bytes.value, r.value))
  {
    var bytes := Bytes(Text.Split(input, '\n'));
    if bytes.None? {
      return None;
    }
    var times := FirstFall(size, bytes.value);
    if times.None? {
      return None;
    }
    var bad;
    r, bad := Bisect(size, times.value, bytes.value);
    BisectAnswers(size, times.value, bytes.value, r, bad);
  }

  /** `part2`: the answer of the bisection on the 71 by 71 grid, written
      `col,row`. */
  method Part2(input: seq<char>) returns (r: Option<seq<char>>)
    ensures var bytes := Bytes(Text.Split(input, '\n'));
      r.Some? <==> (bytes.Some? && TableAsWritten(71, bytes.value).Some? &&
        exists b :: Answers(71, Lift(TableAsWritten(71, bytes.value).value), bytes.value, b))
    ensures var bytes := Bytes(Text.Split(input, '\n'));
      r.Some? ==> (bytes.Some? && TableAsWritten(71, bytes.value).Some? &&
        exists b :: Answers(71, Lift(TableAsWritten(71, bytes.value).value), bytes.value, b) && r.value == Show(b))
  {
    var b := Part2WithParameters(input, 71);
    if b.None? {
      return None;
    }
    r := Some(Show(b.value));
  }

  /** `part2` on the first-fall table. */
  method Part2Intended(input: seq<char>) returns (r: Option<seq<char>>)
    ensures var bytes := Bytes(Text.Split(input, '\n'));
      r.Some? <==> (bytes.Some? && FirstFall(71, bytes.value).Some? &&
        exists b :: Answers(71, FirstFall(71, bytes.value).value, bytes.value, b))
    ensures var bytes := Bytes(Text.Split(input, '\n'));
      r.Some? ==> (bytes.Some? && FirstFall(71, bytes.value).Some? &&
        exists b :: Answers(71, FirstFall(71, bytes.value).value, bytes.value, b) && r.value == Show(b))
  {
    var b := Part2WithParametersIntended(input, 71);
    if b.None? {
      return None;
    }
    r := Some(Show(b.value));
  }
}
