/** Day 12: garden plots. A flood fill finds each 4-connected region of
    equal plants and measures its area, its perimeter and its number of
    sides; the answers weight each region's area by one of the two. */
module Day12 {
  import opened Common
  import Text

  /** Row-major plots; `rows * cols == |cells|`. */
  datatype Grid = Grid(rows: nat, cols: nat, cells: seq<char>)

  predicate Valid(g: Grid)
  {
    g.cols > 0 && |g.cells| == g.rows * g.cols
  }

  /** `Grid::from_bytes`: the width of the first line, the bytes without
      newlines. `None` when there is no first line to measure (the
      division by zero panics) or the rows are ragged. */
  function FromBytes(bytes: seq<char>): (r: Option<Grid>)
    ensures r.Some? <==> |Text.FirstLine(bytes)| > 0 && |Text.RemoveNewlines(bytes)| % |Text.FirstLine(bytes)| == 0
    ensures r.Some? ==> Valid(r.value) && r.value.cols == |Text.FirstLine(bytes)| && r.value.cells == Text.RemoveNewlines(bytes)
  {
    var cols := |Text.FirstLine(bytes)|;
    var cells := Text.RemoveNewlines(bytes);
    if cols == 0 || |cells| % cols != 0 then None
    else
      DivExact(|cells|, cols);
      Some(Grid(|cells| / cols, cols, cells))
  }

  lemma DivExact(a: nat, b: nat)
    requires b > 0 && a % b == 0
    ensures (a / b) * b == a
  {
  }

  /** Division by a positive number has one quotient and one remainder. */
  lemma DivModUnique(n: int, d: int, q: int, m: int)
    requires d > 0 && 0 <= m < d && n == q * d + m
    ensures n / d == q && n % d == m
  {
    var q', m' := n / d, n % d;
    assert (q' - q) * d == m - m';
    if q' > q {
      MulAtLeast(q' - q, d);
    } else if q' < q {
      MulAtMost(q' - q, d);
    }
  }

  // ----- coordinates -----

  function ToCoords(g: Grid, i: nat): (nat, nat)
    requires g.cols > 0
  {
    (i / g.cols, i % g.cols)
  }

  function ToIndex(g: Grid, p: (nat, nat)): nat
  {
    p.0 * g.cols + p.1
  }

  /** `to_coords` and `to_index` undo each other inside the grid. */
  lemma CoordsRoundTrip(g: Grid, i: nat, p: (nat, nat))
    requires Valid(g)
    ensures ToIndex(g, ToCoords(g, i)) == i
    ensures p.1 < g.cols ==> ToCoords(g, ToIndex(g, p)) == p
  {
    if p.1 < g.cols {
      DivModUnique(ToIndex(g, p), g.cols, p.0, p.1);
    }
  }

  /** Moving the coordinates by one row and one column moves the index
      by `cols` and by one. */
  lemma Shift(g: Grid, i: nat, dr: int, dc: int)
    requires Valid(g) && -1 <= dr <= 1 && -1 <= dc <= 1
    requires i / g.cols + dr >= 0 && 0 <= i % g.cols + dc < g.cols
    ensures ToIndex(g, ((i / g.cols + dr) as nat, (i % g.cols + dc) as nat)) == i + Offset(g, dr) + dc
  {
    assert (i / g.cols + dr) * g.cols == (i / g.cols) * g.cols + dr * g.cols;
  }

  function Offset(g: Grid, dr: int): int
  {
    if dr < 0 then -(g.cols as int) else if dr > 0 then g.cols as int else 0
  }

  /** Index `i` lies on row `i / cols`; the row below exists while the
      index one row down stays inside the grid. */
  lemma RowBounds(g: Grid, i: nat)
    requires Valid(g) && i < |g.cells|
    ensures i / g.cols < g.rows
    ensures i / g.cols > 0 <==> i >= g.cols
    ensures i / g.cols < g.rows - 1 <==> i + g.cols < |g.cells|
  {
    var q, m := i / g.cols, i % g.cols;
    assert i == q * g.cols + m;
    MulLe(g.rows, q, g.cols);
    MulLe(q + 2, g.rows, g.cols);
    MulLe(1, q, g.cols);
    assert (q + 1) * g.cols == q * g.cols + g.cols;
    assert (q + 2) * g.cols == q * g.cols + 2 * g.cols;
  }

  /** A step that keeps row and column inside the grid lands on the index
      `to_index` computes for the moved coordinates. */
  lemma Step(g: Grid, i: nat, dr: int, dc: int)
    requires Valid(g) && i < |g.cells| && -1 <= dr <= 1 && -1 <= dc <= 1
    requires 0 <= i / g.cols + dr < g.rows && 0 <= i % g.cols + dc < g.cols
    ensures 0 <= i + Offset(g, dr) + dc < |g.cells|
    ensures ToIndex(g, ((i / g.cols + dr) as nat, (i % g.cols + dc) as nat)) == i + Offset(g, dr) + dc
  {
    Shift(g, i, dr, dc);
    var p := ((i / g.cols + dr) as nat, (i % g.cols + dc) as nat);
    MulLe(p.0 + 1, g.rows, g.cols);
    assert (p.0 + 1) * g.cols == p.0 * g.cols + g.cols;
  }

  /** The column of index `i`, by whole rows taken off. */
  function Col(g: Grid, i: nat): (r: nat)
    requires g.cols > 0
    ensures r < g.cols
  {
    if i < g.cols then i else Col(g, i - g.cols)
  }

  lemma {:induction false} ColMod(g: Grid, i: nat)
    requires g.cols > 0
    ensures Col(g, i) == i % g.cols
  {
    if i >= g.cols {
      ColMod(g, i - g.cols);
      DivModUnique(i, g.cols, (i - g.cols) / g.cols + 1, (i - g.cols) % g.cols);
    }
  }

  /** The border tests of the helpers, read on the index: a row above
      exists from index `cols` on, a row below while the index one row
      down is inside the grid. */
  predicate Inside(g: Grid, i: nat, dr: int, dc: int)
    requires g.cols > 0
  {
    (dr < 0 ==> i >= g.cols) && (dr > 0 ==> i + g.cols < |g.cells|) &&
    (dc < 0 ==> Col(g, i) > 0) && (dc > 0 ==> Col(g, i) < g.cols - 1)
  }

  /** The index tests are the row and column tests of `up`, `down`,
      `left`, `right` and the diagonal helpers. */
  lemma InsideCoords(g: Grid, i: nat, dr: int, dc: int)
    requires Valid(g) && i < |g.cells|
    ensures Inside(g, i, dr, dc) <==>
      (dr < 0 ==> i / g.cols > 0) && (dr > 0 ==> i / g.cols < g.rows - 1) &&
      (dc < 0 ==> i % g.cols > 0) && (dc > 0 ==> i % g.cols < g.cols - 1)
  {
    ColMod(g, i);
    RowBounds(g, i);
  }

  /** A step that passes the border tests stays in the grid. */
  lemma InsideStep(g: Grid, i: nat, dr: int, dc: int)
    requires Valid(g) && i < |g.cells| && -1 <= dr <= 1 && -1 <= dc <= 1 && Inside(g, i, dr, dc)
    ensures 0 <= i + Offset(g, dr) + dc < |g.cells|
  {
    InsideCoords(g, i, dr, dc);
    RowBounds(g, i);
    Step(g, i, dr, dc);
  }

  /** The eight helpers `up`, `down`, `left`, `right`, `up_left`,
      `up_right`, `down_left` and `down_right`: the plot one row `dr` and
      one column `dc` away, with its index, or `None` across a border.
      The border tests are the helpers' row and column tests (lemma
      `InsideCoords`) and the index is the one `to_index` gives for the
      moved coordinates (lemma `Step`). */
  function Look(g: Grid, i: nat, dr: int, dc: int): (r: Option<(nat, char)>)
    requires Valid(g) && i < |g.cells| && -1 <= dr <= 1 && -1 <= dc <= 1
    ensures r.None? <==>
      (dr < 0 && i < g.cols) || (dr > 0 && i + g.cols >= |g.cells|) ||
      (dc < 0 && Col(g, i) == 0) || (dc > 0 && Col(g, i) == g.cols - 1)
    ensures r.Some? ==> var j := i + Offset(g, dr) + dc; 0 <= j < |g.cells| && r.value == (j as nat, g.cells[j])
  {
    if Inside(g, i, dr, dc) then
      InsideStep(g, i, dr, dc);
      var ix := i + Offset(g, dr) + dc;
      Some((ix as nat, g.cells[ix]))
    else None
  }

  // ----- neighbours -----

  /** The plant at `o`, when there is one, is `v`. */
  predicate Matches(o: Option<(nat, char)>, v: char)
  {
    o.Some? && o.value.1 == v
  }

  /** The four directions in the order `flood` lists them: up, down,
      left, right. */
  function DirRow(d: nat): int
  {
    if d == 0 then -1 else if d == 1 then 1 else 0
  }

  function DirCol(d: nat): int
  {
    if d == 2 then -1 else if d == 3 then 1 else 0
  }

  /** The same-plant neighbours in directions `d` to 3. */
  function SameFrom(g: Grid, i: nat, d: nat): (r: seq<nat>)
    requires Valid(g) && i < |g.cells| && d <= 4
    ensures |r| <= 4 - d
    ensures forall j :: j in r ==> j < |g.cells| && g.cells[j] == g.cells[i]
    decreases 4 - d
  {
    if d == 4 then []
    else
      var rest := SameFrom(g, i, d + 1);
      var o := Look(g, i, DirRow(d), DirCol(d));
      if Matches(o, g.cells[i]) then [o.value.0] + rest else rest
  }

  /** `neighs`: the indices of the up, down, left and right plots that
      hold the same plant, in that order. Outside the grid there are none. */
  function Same(g: Grid, i: nat): (r: seq<nat>)
    requires Valid(g)
    ensures |r| <= 4
    ensures forall j :: j in r ==> i < |g.cells| && j < |g.cells| && g.cells[j] == g.cells[i]
  {
    if i >= |g.cells| then [] else SameFrom(g, i, 0)
  }

  lemma {:induction false} SameFromMembers(g: Grid, i: nat, d: nat, j: nat)
    requires Valid(g) && i < |g.cells| && d <= 4
    ensures j in SameFrom(g, i, d) <==> exists e :: d <= e < 4 && Matches(Look(g, i, DirRow(e), DirCol(e)), g.cells[i]) && Look(g, i, DirRow(e), DirCol(e)).value.0 == j
    decreases 4 - d
  {
    if d < 4 {
      SameFromMembers(g, i, d + 1, j);
    }
  }

  /** Two plots share an edge: same row and neighbouring columns, or same
      column and neighbouring rows. */
  predicate Adjacent(g: Grid, i: nat, j: nat)
    requires g.cols > 0
  {
    var (r1, c1) := ToCoords(g, i);
    var (r2, c2) := ToCoords(g, j);
    (r1 == r2 && Abs(c1 - c2) == 1) || (c1 == c2 && Abs(r1 - r2) == 1)
  }

  /** What `Look` finds sits one row `dr` and one column `dc` away. */
  lemma LookCoords(g: Grid, i: nat, dr: int, dc: int)
    requires Valid(g) && i < |g.cells| && -1 <= dr <= 1 && -1 <= dc <= 1
    requires Look(g, i, dr, dc).Some?
    ensures var (row, col) := ToCoords(g, Look(g, i, dr, dc).value.0);
      row == i / g.cols + dr && col == i % g.cols + dc
  {
    InsideCoords(g, i, dr, dc);
    RowBounds(g, i);
    StepCoords(g, i, dr, dc);
  }

  /** A step inside the grid moves the coordinates by `dr` and `dc`. */
  lemma StepCoords(g: Grid, i: nat, dr: int, dc: int)
    requires Valid(g) && i < |g.cells| && -1 <= dr <= 1 && -1 <= dc <= 1
    requires 0 <= i / g.cols + dr < g.rows && 0 <= i % g.cols + dc < g.cols
    ensures 0 <= i + Offset(g, dr) + dc
    ensures ToCoords(g, i + Offset(g, dr) + dc) == ((i / g.cols + dr) as nat, (i % g.cols + dc) as nat)
  {
    Step(g, i, dr, dc);
    CoordsRoundTrip(g, 0, ((i / g.cols + dr) as nat, (i % g.cols + dc) as nat));
  }

  /** Conversely, a plot one row `dr` and one column `dc` away is what
      `Look` finds. */
  lemma LookAt(g: Grid, i: nat, j: nat, dr: int, dc: int)
    requires Valid(g) && i < |g.cells| && j < |g.cells| && -1 <= dr <= 1 && -1 <= dc <= 1
    requires j / g.cols == i / g.cols + dr && j % g.cols == i % g.cols + dc
    ensures Look(g, i, dr, dc) == Some((j, g.cells[j]))
  {
    RowBounds(g, j);
    assert 0 <= j / g.cols < g.rows && 0 <= j % g.cols < g.cols;
    Step(g, i, dr, dc);
    CoordsRoundTrip(g, j, (0, 0));
    InsideCoords(g, i, dr, dc);
    RowBounds(g, i);
  }

  /** `neighs` holds exactly the adjacent plots with the same plant. */
  lemma SameIff(g: Grid, i: nat, j: nat)
    requires Valid(g) && i < |g.cells|
    ensures j in Same(g, i) <==> j < |g.cells| && Adjacent(g, i, j) && g.cells[j] == g.cells[i]
  {
    if j in Same(g, i) {
      SameSound(g, i, j);
    }
    if j < |g.cells| && Adjacent(g, i, j) && g.cells[j] == g.cells[i] {
      SameComplete(g, i, j);
    }
  }

  lemma SameSound(g: Grid, i: nat, j: nat)
    requires Valid(g) && i < |g.cells| && j in Same(g, i)
    ensures j < |g.cells| && Adjacent(g, i, j)
  {
    SameFromMembers(g, i, 0, j);
    var e :| 0 <= e < 4 && Matches(Look(g, i, DirRow(e), DirCol(e)), g.cells[i]) && Look(g, i, DirRow(e), DirCol(e)).value.0 == j;
    LookCoords(g, i, DirRow(e), DirCol(e));
  }

  lemma SameComplete(g: Grid, i: nat, j: nat)
    requires Valid(g) && i < |g.cells| && j < |g.cells| && Adjacent(g, i, j) && g.cells[j] == g.cells[i]
    ensures j in Same(g, i)
  {
    var (r1, c1) := ToCoords(g, i);
    var (r2, c2) := ToCoords(g, j);
    var e := if r2 == r1 - 1 then 0 else if r2 == r1 + 1 then 1 else if c2 == c1 - 1 then 2 else 3;
    LookAt(g, i, j, DirRow(e), DirCol(e));
    SameFromMembers(g, i, 0, j);
  }

  /** Sharing an edge and a plant goes both ways. */
  lemma SameSymmetric(g: Grid, i: nat, j: nat)
    requires Valid(g)
    ensures j in Same(g, i) <==> i in Same(g, j)
  {
    if j in Same(g, i) {
      SameIff(g, i, j);
      SameIff(g, j, i);
    }
    if i in Same(g, j) {
      SameIff(g, j, i);
      SameIff(g, i, j);
    }
  }

  // ----- corners -----

  /** The three tallies of `corner_counts` the source uses: slot 2 (a
      convex bend or a concave corner, one corner each), slot 3 (a plot at
      the end of a strip, two corners) and slot 4 (a plot on its own). */
  datatype Corners = Corners(turns: nat, ends: nat, lone: nat)

  function Add(a: Corners, b: Corners): Corners
  {
    Corners(a.turns + b.turns, a.ends + b.ends, a.lone + b.lone)
  }

  const NoCorners := Corners(0, 0, 0)

  /** The corrected straight test: the same-plant neighbours are the ones
      above and below, or the ones to the left and to the right. */
  predicate Straight(g: Grid, i: nat)
    requires Valid(g) && i < |g.cells|
  {
    var v := g.cells[i];
    (Matches(Look(g, i, -1, 0), v) && Matches(Look(g, i, 1, 0), v)) ||
    (Matches(Look(g, i, 0, -1), v) && Matches(Look(g, i, 0, 1), v))
  }

  /** The straight test as written at `src/day12.rs:156-159`: the two
      neighbour indices differ by two rows or by two. */
  predicate StraightAsWritten(g: Grid, ns: seq<nat>)
    requires |ns| == 2
  {
    Abs(ns[0] as int - ns[1]) == 2 * g.cols || Abs(ns[0] as int - ns[1]) == 2
  }

  /** A plot with two same-plant neighbours lies on a straight run exactly
      when it is the midpoint of the two. */
  lemma StraightMidpoint(g: Grid, i: nat)
    requires Valid(g) && i < |g.cells| && |Same(g, i)| == 2
    ensures Straight(g, i) <==> Same(g, i)[0] + Same(g, i)[1] == 2 * i
  {
  }

  /** Except on grids three plots wide, the written test is the straight
      test. */
  lemma StraightAsWrittenAgrees(g: Grid, i: nat)
    requires Valid(g) && i < |g.cells| && |Same(g, i)| == 2 && g.cols != 3
    ensures StraightAsWritten(g, Same(g, i)) <==> Straight(g, i)
  {
    var v := g.cells[i];
    var up, down, left, right := Look(g, i, -1, 0), Look(g, i, 1, 0), Look(g, i, 0, -1), Look(g, i, 0, 1);
    SameFour(g, i);
    assert Same(g, i) == Kept(up, v) + Kept(down, v) + Kept(left, v) + Kept(right, v);
  }

  /** The index of a neighbour when it holds plant `v`, else nothing. */
  function Kept(o: Option<(nat, char)>, v: char): (r: seq<nat>)
    ensures |r| == if Matches(o, v) then 1 else 0
  {
    if Matches(o, v) then [o.value.0] else []
  }

  /** `neighs` lists the up, down, left and right same-plant plots. */
  lemma SameFour(g: Grid, i: nat)
    requires Valid(g) && i < |g.cells|
    ensures var v := g.cells[i];
      Same(g, i) == Kept(Look(g, i, -1, 0), v) + Kept(Look(g, i, 1, 0), v) + Kept(Look(g, i, 0, -1), v) + Kept(Look(g, i, 0, 1), v)
  {
    var v := g.cells[i];
    assert SameFrom(g, i, 3) == Kept(Look(g, i, 0, 1), v);
    assert SameFrom(g, i, 2) == Kept(Look(g, i, 0, -1), v) + SameFrom(g, i, 3);
    assert SameFrom(g, i, 1) == Kept(Look(g, i, 1, 0), v) + SameFrom(g, i, 2);
    assert SameFrom(g, i, 0) == Kept(Look(g, i, -1, 0), v) + SameFrom(g, i, 1);
  }

  /** On the grid `AAB` / `ABB` the corner plot 0 has its neighbours below
      (3) and to the right (1), three apart by index minus one: the written
      test calls the bend straight, so region `A` loses a corner. */
  lemma StraightAsWrittenMisreads(g: Grid)
    requires g == Grid(2, 3, "AABABB")
    ensures Valid(g) && Same(g, 0) == [3, 1] && StraightAsWritten(g, Same(g, 0)) && !Straight(g, 0)
  {
    assert Valid(g);
    SameFour(g, 0);
    assert Look(g, 0, -1, 0).None? && Look(g, 0, 0, -1).None?;
    assert Look(g, 0, 1, 0) == Some((3, 'A')) && Look(g, 0, 0, 1) == Some((1, 'A'));
  }

  /** There plot 0 has one concave corner (its diagonal neighbour 4 is
      `B`); the written test drops its bend, so it counts one corner where
      the corrected test counts two. */
  lemma MisreadLosesCorner(g: Grid)
    requires g == Grid(2, 3, "AABABB")
    ensures Valid(g) && CellCorners(g, 0, true).turns == 1 && CellCorners(g, 0, false).turns == 2
  {
    assert Valid(g) && 0 < |g.cells|;
    var ns := Same(g, 0);
    assert |ns| == 2 && StraightAsWritten(g, ns) && !Straight(g, 0) by {
      StraightAsWrittenMisreads(g);
    }
    var sum := Concave(g, 0, -1, -1) + Concave(g, 0, -1, 1) + Concave(g, 0, 1, -1) + Concave(g, 0, 1, 1);
    assert sum == 1 by {
      ExampleConcave(g);
    }
    MisreadTurns(g, 0);
  }

  /** Where the written test calls a bend straight, the plot counts one
      turn fewer than the corrected test gives it. */
  lemma MisreadTurns(g: Grid, i: nat)
    requires Valid(g) && i < |g.cells|
    requires |Same(g, i)| == 2 && StraightAsWritten(g, Same(g, i)) && !Straight(g, i)
    ensures var sum := Concave(g, i, -1, -1) + Concave(g, i, -1, 1) + Concave(g, i, 1, -1) + Concave(g, i, 1, 1);
      CellCorners(g, i, true).turns == sum && CellCorners(g, i, false).turns == sum + 1
  {
    CornerTurns(g, i, true);
    CornerTurns(g, i, false);
  }

  /** Plot 0 of `AAB` / `ABB` has one concave corner, towards plot 4. */
  lemma ExampleConcave(g: Grid)
    requires g == Grid(2, 3, "AABABB")
    ensures Valid(g) && 0 < |g.cells|
    ensures Concave(g, 0, -1, -1) == 0 && Concave(g, 0, -1, 1) == 0 && Concave(g, 0, 1, -1) == 0
    ensures Concave(g, 0, 1, 1) == 1
  {
    assert Valid(g);
    assert Look(g, 0, -1, 0).None? && Look(g, 0, 0, -1).None?;
    assert Look(g, 0, 1, 0) == Some((3, 'A')) && Look(g, 0, 0, 1) == Some((1, 'A'));
    assert Look(g, 0, 1, 1) == Some((4, 'B'));
  }

  /** A plot's turns: one for a bend, plus its concave corners. */
  lemma CornerTurns(g: Grid, i: nat, asWritten: bool)
    requires Valid(g) && i < |g.cells|
    ensures var ns := Same(g, i);
      var straight := if asWritten then |ns| == 2 && StraightAsWritten(g, ns) else Straight(g, i);
      CellCorners(g, i, asWritten).turns ==
        (if |ns| == 2 && !straight then 1 else 0) +
        Concave(g, i, -1, -1) + Concave(g, i, -1, 1) + Concave(g, i, 1, -1) + Concave(g, i, 1, 1)
  {
  }

  /** Off grids three plots wide, both straight tests give every plot the
      same corners ... */
  lemma CornerTablesAgree(g: Grid)
    requires Valid(g) && g.cols != 3
    ensures CornerTable(g, true) == CornerTable(g, false)
  {
    forall i | 0 <= i < |g.cells| ensures CellCorners(g, i, true) == CellCorners(g, i, false) {
      if |Same(g, i)| == 2 {
        StraightAsWrittenAgrees(g, i);
      }
    }
  }

  /** ... and so the same total price by sides. */
  lemma {:induction false} PricesAgree(g: Grid, n: nat)
    requires Valid(g) && g.cols != 3 && n <= |g.cells|
    ensures Prices(g, n, BySides(true)) == Prices(g, n, BySides(false))
  {
    if n > 0 {
      PricesAgree(g, n - 1);
      PricesAgreeStep(g, n - 1);
    }
  }

  lemma PricesAgreeStep(g: Grid, n: nat)
    requires Valid(g) && g.cols != 3 && n < |g.cells|
    requires Prices(g, n, BySides(true)) == Prices(g, n, BySides(false))
    ensures Prices(g, n + 1, BySides(true)) == Prices(g, n + 1, BySides(false))
  {
    MeasureAgree(g, Region(g, n));
    assert LeadPrice(g, n, BySides(true)) == LeadPrice(g, n, BySides(false));
  }

  lemma MeasureAgree(g: Grid, R: set<nat>)
    requires Valid(g) && g.cols != 3
    ensures Measure(g, R, BySides(true)) == Measure(g, R, BySides(false))
  {
    CornerTablesAgree(g);
  }

  /** One concave corner: the plots one row `dr` away and one column `dc`
      away hold the same plant and the diagonal plot between them does not. */
  function Concave(g: Grid, i: nat, dr: int, dc: int): nat
    requires Valid(g) && i < |g.cells| && (dr == -1 || dr == 1) && (dc == -1 || dc == 1)
  {
    var v := g.cells[i];
    var o := Look(g, i, dr, dc);
    if Matches(Look(g, i, dr, 0), v) && Matches(Look(g, i, 0, dc), v) && o.Some? && o.value.1 != v then 1 else 0
  }

  /** What one visited plot adds to the corner tallies: its shape by the
      number of same-plant neighbours, then its four concave corners.
      `asWritten` picks the straight test of the source over the
      corrected one. */
  function CellCorners(g: Grid, i: nat, asWritten: bool): (r: Corners)
    requires Valid(g) && i < |g.cells|
    ensures r.lone <= 1 && r.ends <= 1 && r.turns <= 5
  {
    var n := |Same(g, i)|;
    var straight := if asWritten then n == 2 && StraightAsWritten(g, Same(g, i)) else Straight(g, i);
    var shape :=
      if n == 0 then Corners(0, 0, 1)
      else if n == 1 then Corners(0, 1, 0)
      else if n == 2 && !straight then Corners(1, 0, 0)
      else NoCorners;
    var concave := Concave(g, i, -1, -1) + Concave(g, i, -1, 1) + Concave(g, i, 1, -1) + Concave(g, i, 1, 1);
    Add(shape, Corners(concave, 0, 0))
  }

  /** The fences around one plot: one per side without a same-plant
      neighbour. */
  function Fences(g: Grid, i: nat): (r: nat)
    requires Valid(g)
  {
    4 - |Same(g, i)|
  }

  /** The number of sides read off the corner tallies: a lone plot has
      four; otherwise every turn is one corner and every strip end two. */
  function SidesOf(c: Corners): (r: nat)
  {
    if c.lone > 0 then 4 else 2 * c.turns + 3 * c.ends - c.turns - c.ends
  }

  /** Every plot's corner share and fence count, by index. */
  function CornerTable(g: Grid, asWritten: bool): (r: seq<Corners>)
    requires Valid(g)
    ensures |r| == |g.cells| && forall i :: 0 <= i < |g.cells| ==> r[i] == CellCorners(g, i, asWritten)
  {
    seq(|g.cells|, i requires 0 <= i < |g.cells| => CellCorners(g, i, asWritten))
  }

  function FenceTable(g: Grid): (r: seq<nat>)
    requires Valid(g)
    ensures |r| == |g.cells| && forall i :: 0 <= i < |g.cells| ==> r[i] == Fences(g, i)
  {
    seq(|g.cells|, i requires 0 <= i < |g.cells| => Fences(g, i))
  }

  /** The corner shares of the plots of `R` below `n`, added up. */
  function Tally(cs: seq<Corners>, R: set<nat>, n: nat): Corners
    requires n <= |cs|
  {
    if n == 0 then NoCorners
    else Add(Tally(cs, R, n - 1), if n - 1 in R then cs[n - 1] else NoCorners)
  }

  /** The fences of the plots of `R` below `n`, added up. */
  function FenceTotal(fs: seq<nat>, R: set<nat>, n: nat): nat
    requires n <= |fs|
  {
    if n == 0 then 0
    else FenceTotal(fs, R, n - 1) + (if n - 1 in R then fs[n - 1] else 0)
  }

  lemma {:induction false} NothingTallied(cs: seq<Corners>, fs: seq<nat>, n: nat)
    requires n <= |cs| && n <= |fs|
    ensures Tally(cs, {}, n) == NoCorners && FenceTotal(fs, {}, n) == 0
  {
    if n > 0 {
      NothingTallied(cs, fs, n - 1);
    }
  }

  /** Adding a plot to the set adds its share to the tally. */
  lemma {:induction false} TallyInsert(cs: seq<Corners>, R: set<nat>, x: nat, n: nat)
    requires n <= |cs| && x < |cs| && x !in R
    ensures Tally(cs, R + {x}, n) == if x < n then Add(Tally(cs, R, n), cs[x]) else Tally(cs, R, n)
  {
    if n > 0 {
      TallyInsert(cs, R, x, n - 1);
    }
  }

  lemma {:induction false} FenceInsert(fs: seq<nat>, R: set<nat>, x: nat, n: nat)
    requires n <= |fs| && x < |fs| && x !in R
    ensures FenceTotal(fs, R + {x}, n) == if x < n then FenceTotal(fs, R, n) + fs[x] else FenceTotal(fs, R, n)
  {
    if n > 0 {
      FenceInsert(fs, R, x, n - 1);
    }
  }

  /** A plot has at most four fences, so the perimeter is at most four
      times the area. */
  lemma {:induction false} FenceBound(g: Grid, R: set<nat>, n: nat)
    requires Valid(g) && n <= |g.cells|
    ensures FenceTotal(FenceTable(g), R, n) <= 4 * |R * Below(n)|
  {
    if n > 0 {
      FenceBound(g, R, n - 1);
      if n - 1 in R {
        assert R * Below(n) == R * Below(n - 1) + {n - 1};
      } else {
        assert R * Below(n) == R * Below(n - 1);
      }
    }
  }

  // ----- regions -----

  /** A walk: each step goes to a same-plant neighbour. */
  ghost predicate Walk(g: Grid, w: seq<nat>)
    requires Valid(g)
  {
    |w| > 0 && forall k :: 0 <= k < |w| - 1 ==> w[k + 1] in Same(g, w[k])
  }

  /** Plot `j` is in the region of plot `s`. */
  ghost predicate Reach(g: Grid, s: nat, j: nat)
    requires Valid(g)
  {
    exists w :: Walk(g, w) && w[0] == s && w[|w| - 1] == j
  }

  /** The region of `s`: every plot a walk from `s` reaches. */
  ghost function Region(g: Grid, s: nat): set<nat>
    requires Valid(g)
  {
    set j | 0 <= j < |g.cells| && Reach(g, s, j)
  }

  lemma ReachSelf(g: Grid, s: nat)
    requires Valid(g)
    ensures Reach(g, s, s)
  {
    assert Walk(g, [s]);
  }

  lemma ReachStep(g: Grid, s: nat, a: nat, b: nat)
    requires Valid(g) && Reach(g, s, a) && b in Same(g, a)
    ensures Reach(g, s, b)
  {
    var w :| Walk(g, w) && w[0] == s && w[|w| - 1] == a;
    var w' := w + [b];
    assert forall k :: 0 <= k < |w'| - 1 ==> w'[k] == w[k];
    assert Walk(g, w');
  }

  /** Regions are closed under walking on. */
  lemma ReachTrans(g: Grid, a: nat, b: nat, c: nat)
    requires Valid(g) && Reach(g, a, b) && Reach(g, b, c)
    ensures Reach(g, a, c)
  {
    var u :| Walk(g, u) && u[0] == a && u[|u| - 1] == b;
    var v :| Walk(g, v) && v[0] == b && v[|v| - 1] == c;
    var w := u + v[1..];
    assert w[0] == a && w[|w| - 1] == c;
    assert forall k :: 0 <= k < |w| - 1 ==> w[k + 1] in Same(g, w[k]) by {
      forall k | 0 <= k < |w| - 1
        ensures w[k + 1] in Same(g, w[k])
      {
        if k < |u| - 1 {
          assert w[k] == u[k] && w[k + 1] == u[k + 1];
        } else {
          assert w[k] == v[k - |u| + 1] && w[k + 1] == v[k - |u| + 2];
        }
      }
    }
    assert Walk(g, w);
  }

  /** Walks run both ways, so plots share a region symmetrically. */
  lemma ReachSym(g: Grid, a: nat, b: nat)
    requires Valid(g) && Reach(g, a, b)
    ensures Reach(g, b, a)
  {
    var u :| Walk(g, u) && u[0] == a && u[|u| - 1] == b;
    var w := Reverse(u);
    ReverseWalk(g, u);
    assert w[0] == b && w[|w| - 1] == a;
  }

  function Reverse(u: seq<nat>): (r: seq<nat>)
    ensures |r| == |u| && forall k :: 0 <= k < |u| ==> r[k] == u[|u| - 1 - k]
  {
    if |u| == 0 then [] else Reverse(u[1..]) + [u[0]]
  }

  lemma ReverseWalk(g: Grid, u: seq<nat>)
    requires Valid(g) && Walk(g, u)
    ensures Walk(g, Reverse(u))
  {
    var w := Reverse(u);
    forall k | 0 <= k < |w| - 1
      ensures w[k + 1] in Same(g, w[k])
    {
      var m := |u| - 2 - k;
      assert u[m + 1] in Same(g, u[m]);
      SameSymmetric(g, u[m], u[m + 1]);
    }
  }

  /** A walk from `s` stays in the plots it starts from. */
  lemma ReachInGrid(g: Grid, s: nat, j: nat)
    requires Valid(g) && s < |g.cells| && Reach(g, s, j)
    ensures j < |g.cells|
  {
    var w :| Walk(g, w) && w[0] == s && w[|w| - 1] == j;
    if |w| > 1 {
      assert w[|w| - 1] in Same(g, w[|w| - 2]);
    }
  }

  /** No same-plant neighbour leads out of `S`. */
  ghost predicate Closed(g: Grid, S: set<nat>)
    requires Valid(g)
  {
    forall v, j :: v in S && j in Same(g, v) ==> j in S
  }

  /** A closed set holding `s` holds its whole region. */
  lemma ClosedHoldsRegion(g: Grid, S: set<nat>, s: nat, j: nat)
    requires Valid(g) && Closed(g, S) && s in S && Reach(g, s, j)
    ensures j in S
  {
    var w :| Walk(g, w) && w[0] == s && w[|w| - 1] == j;
    var k := 0;
    while k < |w| - 1
      invariant 0 <= k < |w| && w[k] in S
    {
      assert w[k + 1] in Same(g, w[k]);
      k := k + 1;
    }
  }

  /** A region holds one kind of plant. */
  lemma RegionOnePlant(g: Grid, s: nat, j: nat)
    requires Valid(g) && s < |g.cells| && Reach(g, s, j)
    ensures j < |g.cells| && g.cells[j] == g.cells[s]
  {
    var w :| Walk(g, w) && w[0] == s && w[|w| - 1] == j;
    var k := 0;
    while k < |w| - 1
      invariant 0 <= k < |w| && w[k] < |g.cells| && g.cells[w[k]] == g.cells[s]
    {
      assert w[k + 1] in Same(g, w[k]);
      k := k + 1;
    }
  }

  // ----- the flood fill -----

  /** The indices below `n`. */
  function Below(n: nat): (r: set<nat>)
    ensures forall j :: j in r <==> 0 <= j < n
  {
    if n == 0 then {} else Below(n - 1) + {n - 1}
  }

  /** The neighbours that are not visited yet, in order. */
  function Unvisited(ns: seq<nat>, visited: set<nat>): (r: seq<nat>)
    ensures forall j :: j in r <==> j in ns && j !in visited
  {
    if |ns| == 0 then []
    else if ns[0] in visited then Unvisited(ns[1..], visited)
    else [ns[0]] + Unvisited(ns[1..], visited)
  }

  /** What the fill keeps true: everything visited or queued is in the
      region of `start`, `start` is one of them, and every same-plant
      neighbour of a visited plot is visited or queued. */
  ghost predicate Filling(g: Grid, start: nat, visited: set<nat>, queue: seq<nat>)
    requires Valid(g)
  {
    (forall v :: v in visited ==> v < |g.cells| && Reach(g, start, v)) &&
    (forall j :: j in queue ==> j < |g.cells| && Reach(g, start, j)) &&
    (start in visited || start in queue) &&
    (forall v, j :: v in visited && j in Same(g, v) ==> j in visited || j in queue)
  }

  /** One pop of the queue keeps the fill's invariant: a visited plot is
      dropped, a new one is visited and its unvisited neighbours queued. */
  lemma PopKeeps(g: Grid, start: nat, visited: set<nat>, queue: seq<nat>)
    requires Valid(g) && Filling(g, start, visited, queue) && |queue| > 0
    ensures var ix := queue[0];
      if ix in visited then Filling(g, start, visited, queue[1..])
      else Filling(g, start, visited + {ix}, queue[1..] + Unvisited(Same(g, ix), visited + {ix}))
  {
    var ix := queue[0];
    assert ix in queue;
    assert forall j :: j in queue ==> j == ix || j in queue[1..];
    assert forall j :: j in queue[1..] ==> j in queue;
    if ix !in visited {
      forall j | j in Same(g, ix)
        ensures Reach(g, start, j)
      {
        ReachStep(g, start, ix, j);
      }
    }
  }

  /** Visiting the plot at the head of the queue keeps the fill's
      invariant, adds the plot's corners and fences, and leaves fewer
      plots unvisited. */
  lemma VisitStep(g: Grid, start: nat, asWritten: bool, visited: set<nat>, queue: seq<nat>)
    requires Valid(g) && Filling(g, start, visited, queue) && |queue| > 0 && queue[0] !in visited
    ensures var ix, v := queue[0], visited + {queue[0]};
      Filling(g, start, v, queue[1..] + Unvisited(Same(g, ix), v)) &&
      Tally(CornerTable(g, asWritten), v, |g.cells|) ==
        Add(Tally(CornerTable(g, asWritten), visited, |g.cells|), CellCorners(g, ix, asWritten)) &&
      FenceTotal(FenceTable(g), v, |g.cells|) == FenceTotal(FenceTable(g), visited, |g.cells|) + (4 - |Same(g, ix)|) &&
      Below(|g.cells|) - v < Below(|g.cells|) - visited
  {
    var ix := queue[0];
    PopKeeps(g, start, visited, queue);
    assert ix in queue;
    TallyInsert(CornerTable(g, asWritten), visited, ix, |g.cells|);
    FenceInsert(FenceTable(g), visited, ix, |g.cells|);
    assert ix in Below(|g.cells|) - visited;
  }

  /** With nothing left to queue, the fill holds the whole region. */
  lemma FillDone(g: Grid, start: nat, visited: set<nat>)
    requires Valid(g) && Filling(g, start, visited, [])
    ensures visited == Region(g, start)
  {
    forall j | j in Region(g, start)
      ensures j in visited
    {
      ClosedHoldsRegion(g, visited, start, j);
    }
  }

  /** `Grid::flood`: a breadth-first fill from `start` that skips plots it
      has seen, and the region's area, perimeter and number of sides. */
  method Flood(g: Grid, start: nat, asWritten: bool) returns (visited: set<nat>, area: nat, perimeter: nat, sides: nat)
    requires Valid(g) && start < |g.cells|
    ensures visited == Region(g, start)
    ensures area == |visited|
    ensures perimeter == FenceTotal(FenceTable(g), visited, |g.cells|)
    ensures sides == SidesOf(Tally(CornerTable(g, asWritten), visited, |g.cells|))
  {
    visited, area, perimeter := {}, 0, 0;
    var corners := NoCorners;
    var queue: seq<nat> := [start];
    ReachSelf(g, start);
    NothingTallied(CornerTable(g, asWritten), FenceTable(g), |g.cells|);
    while |queue| > 0
      invariant Filling(g, start, visited, queue)
      invariant area == |visited|
      invariant corners == Tally(CornerTable(g, asWritten), visited, |g.cells|)
      invariant perimeter == FenceTotal(FenceTable(g), visited, |g.cells|)
      decreases Below(|g.cells|) - visited, |queue|
    {
      var ix := queue[0];
      if ix in visited {
        PopKeeps(g, start, visited, queue);
        queue := queue[1..];
      } else {
        visited, queue, area, perimeter, corners := VisitHead(g, start, asWritten, visited, queue, area, perimeter, corners);
      }
    }
    sides := SidesOf(corners);
    FillDone(g, start, visited);
  }

  /** The body of `flood`'s loop for a plot not seen yet: mark it, count
      its area, fences and corners, and queue its unvisited same-plant
      neighbours. */
  method VisitHead(g: Grid, start: nat, asWritten: bool, visited: set<nat>, queue: seq<nat>, area: nat, perimeter: nat, corners: Corners)
    returns (visited2: set<nat>, queue2: seq<nat>, area2: nat, perimeter2: nat, corners2: Corners)
    requires Valid(g) && Filling(g, start, visited, queue) && |queue| > 0 && queue[0] !in visited
    requires area == |visited|
    requires corners == Tally(CornerTable(g, asWritten), visited, |g.cells|)
    requires perimeter == FenceTotal(FenceTable(g), visited, |g.cells|)
    ensures Filling(g, start, visited2, queue2) && area2 == |visited2|
    ensures corners2 == Tally(CornerTable(g, asWritten), visited2, |g.cells|)
    ensures perimeter2 == FenceTotal(FenceTable(g), visited2, |g.cells|)
    ensures Below(|g.cells|) - visited2 < Below(|g.cells|) - visited
  {
    var ix := queue[0];
    VisitStep(g, start, asWritten, visited, queue);
    visited2 := visited + {ix};
    area2 := area + 1;
    var neighs := Same(g, ix);
    perimeter2 := perimeter + (4 - |neighs|);
    corners2 := Add(corners, CellCorners(g, ix, asWritten));
    queue2 := queue[1..] + Unvisited(neighs, visited2);
  }

  // ----- the fence prices -----

  /** Plot `i` is the first of its region: no earlier plot reaches it. */
  ghost predicate Leader(g: Grid, i: nat)
    requires Valid(g)
  {
    forall k :: 0 <= k < i ==> !Reach(g, k, i)
  }

  /** How a region is priced: by its perimeter (`part1`), or by its
      number of sides (`part2`), with the straight test as written or
      corrected. */
  datatype Pricing = ByPerimeter | BySides(asWritten: bool)

  /** A region's price: its area times its perimeter, or times its number
      of sides. */
  ghost function Price(g: Grid, R: set<nat>, pricing: Pricing): nat
    requires Valid(g)
  {
    Times(|R|, Measure(g, R, pricing))
  }

  ghost function Measure(g: Grid, R: set<nat>, pricing: Pricing): nat
    requires Valid(g)
  {
    match pricing
    case ByPerimeter => FenceTotal(FenceTable(g), R, |g.cells|)
    case BySides(asWritten) => SidesOf(Tally(CornerTable(g, asWritten), R, |g.cells|))
  }

  /** The prices of the regions whose first plot is below `n`. */
  ghost function Prices(g: Grid, n: nat, pricing: Pricing): nat
    requires Valid(g) && n <= |g.cells|
  {
    if n == 0 then 0 else Prices(g, n - 1, pricing) + LeadPrice(g, n - 1, pricing)
  }

  /** The price of the region plot `k` leads, or nothing. */
  ghost function LeadPrice(g: Grid, k: nat, pricing: Pricing): nat
    requires Valid(g)
  {
    if Leader(g, k) then Price(g, Region(g, k), pricing) else 0
  }

  lemma PricesStep(g: Grid, n: nat, pricing: Pricing)
    requires Valid(g) && n < |g.cells|
    ensures Prices(g, n + 1, pricing) == Prices(g, n, pricing) + if Leader(g, n) then Price(g, Region(g, n), pricing) else 0
  {
  }

  /** The plots of the regions of the plots below `n`. */
  ghost function Covered(g: Grid, n: nat): set<nat>
    requires Valid(g)
  {
    set j | 0 <= j < |g.cells| && Covers(g, n, j)
  }

  ghost predicate Covers(g: Grid, n: nat, j: nat)
    requires Valid(g)
  {
    exists k :: 0 <= k < n && Reach(g, k, j)
  }

  /** A plot already covered starts no new region and covers nothing new. */
  lemma CoveredSkip(g: Grid, index: nat)
    requires Valid(g) && index in Covered(g, index)
    ensures !Leader(g, index) && Covered(g, index + 1) == Covered(g, index)
  {
    var k :| 0 <= k < index && Reach(g, k, index);
    forall j | j in Covered(g, index + 1)
      ensures j in Covered(g, index)
    {
      if Reach(g, index, j) {
        ReachTrans(g, k, index, j);
      }
    }
  }

  /** A plot not yet covered is the first of its region, which the next
      step covers. */
  lemma CoveredGrow(g: Grid, index: nat)
    requires Valid(g) && index < |g.cells| && index !in Covered(g, index)
    ensures Leader(g, index) && Covered(g, index + 1) == Covered(g, index) + Region(g, index)
  {
  }

  /** The loop of `part1` and `part2`: fill from every plot not yet seen
      and add up the prices. */
  method Fence(g: Grid, pricing: Pricing) returns (result: nat)
    requires Valid(g)
    ensures result == Prices(g, |g.cells|, pricing)
  {
    result := 0;
    var visited: set<nat> := {};
    for index := 0 to |g.cells|
      invariant visited == Covered(g, index)
      invariant result == Prices(g, index, pricing)
    {
      PricesStep(g, index, pricing);
      if index in visited {
        CoveredSkip(g, index);
        assert result == Prices(g, index + 1, pricing);
      } else {
        CoveredGrow(g, index);
        var region, area, perimeter, sides := Flood(g, index, pricing.BySides? && pricing.asWritten);
        visited := visited + region;
        var price := Times(area, if pricing.BySides? then sides else perimeter);
        assert price == Price(g, Region(g, index), pricing);
        result := result + price;
        assert result == Prices(g, index + 1, pricing);
      }
    }
  }

  /** `part1`: the total price by perimeter. `None` where reading the
      grid panics or would be ragged. */
  method Part1(input: seq<char>) returns (r: Option<nat>)
    ensures r.Some? <==> FromBytes(input).Some?
    ensures r.Some? ==> r.value == Prices(FromBytes(input).value, |FromBytes(input).value.cells|, ByPerimeter)
  {
    match FromBytes(input)
    case None => r := None;
    case Some(g) =>
      var total := Fence(g, ByPerimeter);
      r := Some(total);
  }

  /** `part2`: the total price by number of sides, with the straight
      test as written. */
  method Part2(input: seq<char>) returns (r: Option<nat>)
    ensures r.Some? <==> FromBytes(input).Some?
    ensures r.Some? ==> r.value == Prices(FromBytes(input).value, |FromBytes(input).value.cells|, BySides(true))
  {
    match FromBytes(input)
    case None => r := None;
    case Some(g) =>
      var total := Fence(g, BySides(true));
      r := Some(total);
  }

  /** `part2` with the corrected straight test: the price the puzzle
      asks for. */
  method Part2Intended(input: seq<char>) returns (r: Option<nat>)
    ensures r.Some? <==> FromBytes(input).Some?
    ensures r.Some? ==> r.value == Prices(FromBytes(input).value, |FromBytes(input).value.cells|, BySides(false))
  {
    match FromBytes(input)
    case None => r := None;
    case Some(g) =>
      var total := Fence(g, BySides(false));
      r := Some(total);
  }

  // ----- every region priced once -----

  /** Every plot has a first plot of its region. */
  lemma {:induction false} LeaderExists(g: Grid, j: nat)
    requires Valid(g) && j < |g.cells|
    ensures exists l :: 0 <= l <= j && Leader(g, l) && Reach(g, l, j)
    decreases j
  {
    ReachSelf(g, j);
    if !Leader(g, j) {
      var k :| 0 <= k < j && Reach(g, k, j);
      LeaderExists(g, k);
      var l :| 0 <= l <= k && Leader(g, l) && Reach(g, l, k);
      ReachTrans(g, l, k, j);
    }
  }

  /** and only one. */
  lemma LeaderUnique(g: Grid, a: nat, b: nat, j: nat)
    requires Valid(g) && Leader(g, a) && Leader(g, b) && Reach(g, a, j) && Reach(g, b, j)
    ensures a == b
  {
    ReachSym(g, b, j);
    ReachTrans(g, a, j, b);
    ReachSym(g, a, j);
    ReachTrans(g, b, j, a);
  }

  /** A flooded region's perimeter is at most four times its area. */
  lemma PerimeterBound(g: Grid, s: nat)
    requires Valid(g) && s < |g.cells|
    ensures FenceTotal(FenceTable(g), Region(g, s), |g.cells|) <= 4 * |Region(g, s)|
  {
    FenceBound(g, Region(g, s), |g.cells|);
    assert Region(g, s) * Below(|g.cells|) == Region(g, s);
  }

  /** A plot with no same-plant neighbour is a region of its own, with
      four fences and four sides. */
  lemma LoneRegion(g: Grid, s: nat)
    requires Valid(g) && s < |g.cells| && |Same(g, s)| == 0
    ensures Region(g, s) == {s}
    ensures FenceTotal(FenceTable(g), Region(g, s), |g.cells|) == 4
    ensures forall w :: SidesOf(Tally(CornerTable(g, w), Region(g, s), |g.cells|)) == 4
  {
    ReachSelf(g, s);
    forall j | j in Region(g, s)
      ensures j == s
    {
      ClosedHoldsRegion(g, {s}, s, j);
    }
    LoneFences(g, s);
    LoneSides(g, s, true);
    LoneSides(g, s, false);
  }

  lemma LoneFences(g: Grid, s: nat)
    requires Valid(g) && s < |g.cells| && |Same(g, s)| == 0
    ensures FenceTotal(FenceTable(g), {s}, |g.cells|) == 4
  {
    NothingTallied(CornerTable(g, false), FenceTable(g), |g.cells|);
    FenceInsert(FenceTable(g), {}, s, |g.cells|);
    assert {} + {s} == {s};
  }

  lemma LoneSides(g: Grid, s: nat, w: bool)
    requires Valid(g) && s < |g.cells| && |Same(g, s)| == 0
    ensures SidesOf(Tally(CornerTable(g, w), {s}, |g.cells|)) == 4
  {
    NothingTallied(CornerTable(g, w), FenceTable(g), |g.cells|);
    TallyInsert(CornerTable(g, w), {}, s, |g.cells|);
    assert {} + {s} == {s};
  }
}
