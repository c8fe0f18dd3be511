/** Day 16: the reindeer maze. A state is a position and a facing;
    turning a quarter costs 1000 and stepping forward onto an empty
    cell costs 1. Part one is the cheapest score from the start, facing
    east, to the end cell in any facing, found with the shared
    lazy-deletion Dijkstra search. */
module Day16 {
  import opened Common
  import opened ShortestPath
  import opened Maze

  datatype Dir = Left | Right | Up | Down

  /** (row, column) offsets of one step. */
  function Offset(d: Dir): (o: (int, int))
    ensures Abs(o.0) + Abs(o.1) == 1
  {
    match d
    case Left => (0, -1)
    case Right => (0, 1)
    case Up => (-1, 0)
    case Down => (1, 0)
  }

  /** Two facings at right angles. */
  predicate Perpendicular(a: Dir, b: Dir)
  {
    Offset(a).0 * Offset(b).0 + Offset(a).1 * Offset(b).1 == 0
  }

  /** `Dir::next`: the two facings a quarter turn away. */
  function Turns(d: Dir): (r: (Dir, Dir))
    ensures r.0 != r.1
  {
    match d
    case Left => (Up, Down)
    case Right => (Up, Down)
    case Up => (Left, Right)
    case Down => (Left, Right)
  }

  /** The turns are exactly the facings at right angles. */
  lemma TurnsArePerpendicular(d: Dir, t: Dir)
    ensures t == Turns(d).0 || t == Turns(d).1 <==> Perpendicular(d, t)
  {
  }

  /** The index `Dir as usize` that `to_dist_index` adds. */
  function DirIndex(d: Dir): (k: nat)
    ensures k < 4
  {
    match d
    case Left => 0
    case Right => 1
    case Up => 2
    case Down => 3
  }

  const AllDirs: set<Dir> := {Left, Right, Up, Down}

  function Step(pos: Pos, d: Dir): Pos
  {
    (pos.0 + Offset(d).0, pos.1 + Offset(d).1)
  }

  /** What lies one step ahead. */
  datatype Ahead = Open(to: Pos) | Blocked | OffGrid

  /** `Grid::next`: the cell ahead when it is empty, `Blocked` at a wall,
      `OffGrid` where `get` panics. */
  function Next(g: Grid, pos: Pos, d: Dir): (r: Ahead)
    ensures r.Open? <==> Get(g, Step(pos, d)) == Some(Empty)
    ensures r.Blocked? <==> Get(g, Step(pos, d)) == Some(Wall)
    ensures r.Open? ==> r.to == Step(pos, d)
  {
    var p := Step(pos, d);
    match Get(g, p)
    case None => OffGrid
    case Some(Wall) => Blocked
    case Some(Empty) => Open(p)
  }

  // ----- the search graph -----

  /** A position and a facing. */
  type State = (Pos, Dir)

  /** `edges`: both quarter turns at 1000, then the step forward at 1
      when the cell ahead is empty; `None` where looking ahead panics. */
  function Edges(g: Grid, s: State): (r: Option<seq<Edge<State>>>)
    ensures r.Some? <==> Get(g, Step(s.0, s.1)).Some?
    ensures r.Some? ==> |r.value| == (if Get(g, Step(s.0, s.1)) == Some(Empty) then 3 else 2)
  {
    var turns := [Edge(1000, (s.0, Turns(s.1).0)), Edge(1000, (s.0, Turns(s.1).1))];
    match Next(g, s.0, s.1)
    case OffGrid => None
    case Blocked => Some(turns)
    case Open(p) => Some(turns + [Edge(1, (p, s.1))])
  }

  /** The moves the puzzle allows from `s`: a quarter turn in place for
      1000, or a step forward onto an empty cell for 1. */
  predicate Legal(g: Grid, s: State, e: Edge<State>)
  {
    (e.cost == 1000 && e.target.0 == s.0 && Perpendicular(s.1, e.target.1)) ||
    (e.cost == 1 && e.target == (Step(s.0, s.1), s.1) && Get(g, Step(s.0, s.1)) == Some(Empty))
  }

  /** Where looking ahead does not panic, `edges` lists exactly the legal
      moves. */
  lemma EdgesAreLegal(g: Grid, s: State, e: Edge<State>)
    requires Edges(g, s).Some?
    ensures e in Edges(g, s).value <==> Legal(g, s, e)
  {
    TurnsArePerpendicular(s.1, e.target.1);
  }

  function Graph(g: Grid): State -> Option<seq<Edge<State>>>
  {
    s => Edges(g, s)
  }

  /** `to_dist_index`: four slots per cell, one per facing. */
  function DistIndex(g: Grid, s: State): int
  {
    4 * Index(g, s.0) + DirIndex(s.1)
  }

  /** A state on a cell has its slot in the `4 * cells.len()` table, and
      two states with columns inside the grid share a slot only when they
      are the same state: so a table keyed by state is the source's
      table. */
  lemma DistIndexSlots(g: Grid, s: State, t: State)
    requires Valid(g)
    ensures Get(g, s.0).Some? ==> 0 <= DistIndex(g, s) < 4 * |g.cells|
    ensures 0 <= s.0.1 < g.cols && 0 <= t.0.1 < g.cols && DistIndex(g, s) == DistIndex(g, t) ==> s == t
  {
    if 0 <= s.0.1 < g.cols && 0 <= t.0.1 < g.cols && DistIndex(g, s) == DistIndex(g, t) {
      assert Index(g, s.0) == Index(g, t.0);
      SameRow(s.0.0, s.0.1, t.0.0, t.0.1, g.cols);
    }
  }

  /** Row-major coordinates are unique. */
  lemma SameRow(r1: int, c1: int, r2: int, c2: int, cols: nat)
    requires 0 <= c1 < cols && 0 <= c2 < cols && r1 * cols + c1 == r2 * cols + c2
    ensures r1 == r2 && c1 == c2
  {
    if r1 < r2 {
      MulLe(r1 + 1, r2, cols);
    } else if r2 < r1 {
      MulLe(r2 + 1, r1, cols);
    }
  }

  /** Every state whose position could be on the grid: the search never
      leaves it. */
  ghost function Universe(g: Grid): set<State>
  {
    var n := |g.cells|;
    set r: int, c: int, d: Dir | 0 <= r < n && 0 <= c < n && d in AllDirs :: ((r, c), d)
  }

  /** A position `get` accepts has both coordinates below the cell
      count. */
  lemma OnGrid(g: Grid, pos: Pos, d: Dir)
    requires Valid(g) && Get(g, pos).Some?
    ensures (pos, d) in Universe(g)
  {
    MulLe(1, pos.0, g.cols);
    assert d in AllDirs;
  }

  /** Turns and steps keep the search among the grid's states, at most
      1000 a move. */
  lemma GraphClosed(g: Grid)
    requires Valid(g)
    ensures Closed(Graph(g), Universe(g), 1000)
  {
    forall s | s in Universe(g) && Graph(g)(s).Some?
      ensures forall e :: e in Graph(g)(s).value ==> e.target in Universe(g) && e.cost <= 1000
    {
      forall e | e in Edges(g, s).value
        ensures e.target in Universe(g) && e.cost <= 1000
      {
        if e.cost == 1 {
          OnGrid(g, e.target.0, e.target.1);
        } else {
          assert e.target.1 in AllDirs;
        }
      }
    }
  }

  /** A search from `start` panics only when the start is off the table
      or some walk from it reaches a state whose look ahead panics. */
  ghost predicate Stuck(g: Grid, start: State)
  {
    Get(g, start.0).None? || exists steps :: Walk(Graph(g), start, steps) && Graph(g)(EndOf(start, steps)).None?
  }

  /** `dijkstra` from `start` to `end`: `Panicked` where marking the start
      in the table or looking ahead panics. */
  method Dijkstra(g: Grid, start: State, end: State) returns (r: Outcome)
    requires Valid(g)
    ensures r.Found? ==> Reaches(Graph(g), start, end, r.cost)
    ensures r.Found? ==> forall steps :: Walk(Graph(g), start, steps) && EndOf(start, steps) == end ==> r.cost <= Cost(steps)
    ensures r.Unreachable? ==> forall steps :: Walk(Graph(g), start, steps) ==> EndOf(start, steps) != end
    ensures r.Panicked? ==> Stuck(g, start)
  {
    if Get(g, start.0).None? {
      return Panicked;
    }
    OnGrid(g, start.0, start.1);
    GraphClosed(g);
    r := Shortest(Graph(g), start, end, Universe(g), 1000);
  }

  // ----- part one -----

  /** The lowest score of the four end facings, `None` when no facing
      is reachable. */
  function Best(found: seq<nat>): (r: Option<nat>)
    ensures r.Some? <==> |found| > 0
    ensures r.Some? ==> r.value in found && forall x :: x in found ==> r.value <= x
  {
    if |found| == 0 then None
    else
      var rest := Best(found[1..]);
      assert forall x :: x in found ==> x == found[0] || x in found[1..];
      if rest.Some? && rest.value < found[0] then rest else Some(found[0])
  }

  /** Every score in `found` is the cost of a walk to the end cell. */
  ghost predicate AllReach(graph: State -> Option<seq<Edge<State>>>, from: State, end: Pos, found: seq<nat>)
  {
    forall x :: x in found ==> exists d :: Reaches(graph, from, (end, d), x)
  }

  /** Every walk to the end cell arriving in one of `facings` costs at
      least some score in `found`. */
  ghost predicate Covers(graph: State -> Option<seq<Edge<State>>>, from: State, end: Pos, found: seq<nat>,
                         facings: seq<Dir>)
  {
    forall steps :: (Walk(graph, from, steps) && EndOf(from, steps).0 == end && EndOf(from, steps).1 in facings) ==>
      exists x :: x in found && x <= Cost(steps)
  }

  /** One more search, for facing `d`, keeps both promises: its score,
      if any, is reached, and it covers the walks arriving facing `d`. */
  lemma SearchStep(graph: State -> Option<seq<Edge<State>>>, from: State, end: Pos, found: seq<nat>,
                   facings: seq<Dir>, d: Dir, one: Outcome, found': seq<nat>)
    requires AllReach(graph, from, end, found) && Covers(graph, from, end, found, facings)
    requires one.Found? ==> Reaches(graph, from, (end, d), one.cost)
    requires one.Found? ==> forall steps :: Walk(graph, from, steps) && EndOf(from, steps) == (end, d) ==> one.cost <= Cost(steps)
    requires one.Unreachable? ==> forall steps :: Walk(graph, from, steps) ==> EndOf(from, steps) != (end, d)
    requires !one.Panicked? && found' == if one.Found? then found + [one.cost] else found
    ensures AllReach(graph, from, end, found') && Covers(graph, from, end, found', facings + [d])
  {
    forall steps | Walk(graph, from, steps) && EndOf(from, steps).0 == end && EndOf(from, steps).1 in facings + [d]
      ensures exists x :: x in found' && x <= Cost(steps)
    {
      if EndOf(from, steps).1 in facings {
        var x :| x in found && x <= Cost(steps);
        assert x in found';
      } else {
        assert EndOf(from, steps) == (end, d);
        assert one.cost in found';
      }
    }
  }

  /** Covering all four facings covers every walk to the end cell. */
  lemma CoversAll(graph: State -> Option<seq<Edge<State>>>, from: State, end: Pos, found: seq<nat>, steps: seq<Edge<State>>)
    requires Covers(graph, from, end, found, [Left, Right, Up, Down])
    requires Walk(graph, from, steps) && EndOf(from, steps).0 == end
    ensures exists x :: x in found && x <= Cost(steps)
  {
    var d := EndOf(from, steps).1;
    assert d == [Left, Right, Up, Down][DirIndex(d)];
  }

  /** `part1`: search from the start facing east to the end in each
      facing and keep the lowest score. `Unreachable` where the final
      `unwrap` panics; `Panicked` where reading the maze or a search
      panics. */
  method Part1(input: seq<char>) returns (r: Outcome)
    ensures FromBytes(input).None? ==> r.Panicked?
    ensures r.Panicked? ==> FromBytes(input).None? || Stuck(FromBytes(input).value, (FromBytes(input).value.start, Right))
    ensures r.Found? ==> (FromBytes(input).Some? &&
      var g := FromBytes(input).value; var from := (g.start, Right);
      (exists d :: Reaches(Graph(g), from, (g.end, d), r.cost)) &&
      forall steps :: Walk(Graph(g), from, steps) && EndOf(from, steps).0 == g.end ==> r.cost <= Cost(steps))
    ensures r.Unreachable? ==> (FromBytes(input).Some? &&
      var g := FromBytes(input).value; var from := (g.start, Right);
      forall steps :: Walk(Graph(g), from, steps) ==> EndOf(from, steps).0 != g.end)
  {
    var parsed := FromBytes(input);
    if parsed.None? {
      return Panicked;
    }
    var g := parsed.value;
    var from := (g.start, Right);
    var facings := [Left, Right, Up, Down];
    var found: seq<nat> := [];
    for i := 0 to 4
      invariant AllReach(Graph(g), from, g.end, found) && Covers(Graph(g), from, g.end, found, facings[..i])
    {
      var one := Dijkstra(g, from, (g.end, facings[i]));
      if one.Panicked? {
        return Panicked;
      }
      var found' := if one.Found? then found + [one.cost] else found;
      PrefixSnoc(facings, i);
      SearchStep(Graph(g), from, g.end, found, facings[..i], facings[i], one, found');
      found := found';
    }
    assert facings[..4] == facings;
    var best := Best(found);
    if best.None? {
      forall steps | Walk(Graph(g), from, steps)
        ensures EndOf(from, steps).0 != g.end
      {
        if EndOf(from, steps).0 == g.end {
          CoversAll(Graph(g), from, g.end, found, steps);
        }
      }
      return Unreachable;
    }
    forall steps | Walk(Graph(g), from, steps) && EndOf(from, steps).0 == g.end
      ensures best.value <= Cost(steps)
    {
      CoversAll(Graph(g), from, g.end, found, steps);
    }
    return Found(best.value);
  }
}
