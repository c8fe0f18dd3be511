/** Day 6: a guard walks a grid, turning right at every wall, until it
    steps off the grid; part 2 counts the single extra walls that trap it
    in a loop instead. */
module Day06 {
  import opened Common
  import Text

  datatype Direction = Up | Down | Left | Right

  /** The (row, column) step of a facing. */
  function Delta(d: Direction): Pos
  {
    match d
    case Up => (-1, 0)
    case Down => (1, 0)
    case Left => (0, -1)
    case Right => (0, 1)
  }

  /** `Direction::next`: a quarter turn clockwise, which maps the step
      (dr, dc) to (dc, -dr). */
  function Next(d: Direction): (e: Direction)
    ensures Delta(e) == (Delta(d).1, -Delta(d).0)
    ensures e != d
  {
    match d
    case Up => Right
    case Down => Left
    case Left => Up
    case Right => Down
  }

  /** Four quarter turns are the identity; two face the opposite way. */
  lemma NextFourTimes(d: Direction)
    ensures Next(Next(Next(Next(d)))) == d
    ensures Delta(Next(Next(d))) == (-Delta(d).0, -Delta(d).1)
  {
  }

  /** `Direction::from_byte`. */
  function DirectionFromByte(c: char): (r: Option<Direction>)
    ensures r.Some? <==> c in "^v<>"
  {
    match c
    case '^' => Some(Up)
    case 'v' => Some(Down)
    case '<' => Some(Left)
    case '>' => Some(Right)
    case _ => None
  }

  /** The grid keeps only its walls, rows as the number of lines and cols
      as the length of the first line. */
  datatype Grid = Grid(walls: set<Pos>, rows: nat, cols: nat)

  /** `Grid::from_bytes`. */
  function FromBytes(bytes: seq<char>): Grid
  {
    var lines := Text.Lines(bytes);
    Grid(set i, j | 0 <= i < |lines| && 0 <= j < |lines[i]| && lines[i][j] == '#' :: (i, j),
         |lines|, |Text.FirstLine(bytes)|)
  }

  /** The grid read from a rectangular text has its lines' shape, and its
      walls are exactly the `#` cells, all inside it. */
  lemma FromBytesLines(lines: seq<seq<char>>, cols: nat)
    requires |lines| >= 1 && Text.Rectangular(lines, cols)
    ensures FromBytes(Text.Join(lines, '\n')).rows == |lines|
    ensures FromBytes(Text.Join(lines, '\n')).cols == cols
    ensures forall p :: p in FromBytes(Text.Join(lines, '\n')).walls <==>
      InBounds(p, |lines|, cols) && lines[p.0][p.1] == '#'
  {
    Text.SplitJoin(lines, '\n');
    Text.FirstLineJoin(lines);
  }

  /** `is_out_of_bounds`. */
  predicate IsOutOfBounds(g: Grid, p: Pos)
  {
    p.0 < 0 || p.0 >= g.rows || p.1 < 0 || p.1 >= g.cols
  }

  /** `cloned_with_extra_cell`: `None` when the cell is already a wall,
      else the same grid with exactly that one wall more. */
  function ClonedWithExtraCell(g: Grid, p: Pos): (r: Option<Grid>)
    ensures r.None? <==> p in g.walls
    ensures r.Some? ==> r.value.rows == g.rows && r.value.cols == g.cols
    ensures r.Some? ==> forall q :: q in r.value.walls <==> q in g.walls || q == p
    ensures r.Some? ==> |r.value.walls| == |g.walls| + 1
  {
    if p in g.walls then None else Some(g.(walls := g.walls + {p}))
  }

  datatype Guard = Guard(position: Pos, direction: Direction)

  predicate IsGuardByte(c: char)
  {
    DirectionFromByte(c).Some?
  }

  /** The first guard byte of `line` at or after column `j`. */
  function FindInLine(line: seq<char>, j: nat): (r: Option<nat>)
    requires j <= |line|
    ensures r.Some? ==> j <= r.value < |line| && IsGuardByte(line[r.value])
    ensures r.Some? ==> forall m :: j <= m < r.value ==> !IsGuardByte(line[m])
    ensures r.None? ==> forall m :: j <= m < |line| ==> !IsGuardByte(line[m])
    decreases |line| - j
  {
    if j == |line| then None
    else if IsGuardByte(line[j]) then Some(j)
    else FindInLine(line, j + 1)
  }

  /** Row-major order on positions. */
  predicate Before(p: Pos, q: Pos)
  {
    p.0 < q.0 || (p.0 == q.0 && p.1 < q.1)
  }

  /** The guard in lines `i..`: the first `^v<>` in row-major order. */
  function FindGuard(lines: seq<seq<char>>, i: nat): (r: Option<Guard>)
    requires i <= |lines|
    ensures r.Some? ==>
      var p := r.value.position;
      i <= p.0 < |lines| && 0 <= p.1 < |lines[p.0]| &&
      DirectionFromByte(lines[p.0][p.1]) == Some(r.value.direction)
    ensures r.Some? ==> forall a, b :: i <= a < |lines| && 0 <= b < |lines[a]| && Before((a, b), r.value.position) ==>
      !IsGuardByte(lines[a][b])
    ensures r.None? ==> forall a, b :: i <= a < |lines| && 0 <= b < |lines[a]| ==> !IsGuardByte(lines[a][b])
    decreases |lines| - i
  {
    if i == |lines| then None
    else
      match FindInLine(lines[i], 0)
      case Some(j) => Some(Guard((i, j), DirectionFromByte(lines[i][j]).value))
      case None => FindGuard(lines, i + 1)
  }

  /** `Guard::from_bytes`. */
  function GuardFromBytes(bytes: seq<char>): Option<Guard>
  {
    FindGuard(Text.Lines(bytes), 0)
  }

  /** `next_pos`: the cell one step ahead in the facing direction. */
  function NextPos(s: Guard): (p: Pos)
    ensures (p.0 - s.position.0, p.1 - s.position.1) == Delta(s.direction)
    ensures Manhattan(p, s.position) == 1
  {
    match s.direction
    case Up => (s.position.0 - 1, s.position.1)
    case Down => (s.position.0 + 1, s.position.1)
    case Left => (s.position.0, s.position.1 - 1)
    case Right => (s.position.0, s.position.1 + 1)
  }

  function TurnRight(s: Guard): Guard
  {
    s.(direction := Next(s.direction))
  }

  /** One pass of the walking loop: `None` when the cell ahead is off the
      grid; a turn in place when it is a wall; otherwise a step onto it. */
  function Step(g: Grid, s: Guard): (r: Option<Guard>)
    ensures r.None? <==> !InBounds(NextPos(s), g.rows, g.cols)
    ensures r.Some? ==>
      (NextPos(s) in g.walls && r.value.position == s.position && r.value.direction == Next(s.direction)) ||
      (NextPos(s) !in g.walls && r.value.position == NextPos(s) && r.value.direction == s.direction)
    ensures r.Some? && r.value.position != s.position ==> r.value.position !in g.walls
  {
    var p := NextPos(s);
    if IsOutOfBounds(g, p) then None
    else if p in g.walls then Some(TurnRight(s))
    else Some(s.(position := p))
  }

  /** The guard after `k` passes of the loop, `None` once it has left. */
  function Iterate(g: Grid, s: Guard, k: nat): Option<Guard>
    decreases k
  {
    if k == 0 then Some(s)
    else
      match Step(g, s)
      case None => None
      case Some(t) => Iterate(g, t, k - 1)
  }

  lemma {:induction false} IterateAdd(g: Grid, s: Guard, a: nat, b: nat)
    requires Iterate(g, s, a).Some?
    ensures Iterate(g, s, a + b) == Iterate(g, Iterate(g, s, a).value, b)
    decreases a
  {
    if a > 0 {
      IterateAdd(g, Step(g, s).value, a - 1, b);
    }
  }

  lemma {:induction false} IterateGone(g: Grid, s: Guard, a: nat, b: nat)
    requires a <= b && Iterate(g, s, a).None?
    ensures Iterate(g, s, b).None?
    decreases a
  {
    if Step(g, s).Some? {
      IterateGone(g, Step(g, s).value, a - 1, b - 1);
    }
  }

  /** A guard that comes back to a state it was in never leaves: the walk
      is deterministic, so it repeats the same cycle for ever. */
  lemma RepeatNeverLeaves(g: Grid, s: Guard, j: nat, k: nat, n: nat)
    requires j < k && Iterate(g, s, j).Some? && Iterate(g, s, j) == Iterate(g, s, k)
    ensures Iterate(g, s, n).Some?
  {
    var t := Iterate(g, s, j).value;
    var period := k - j;
    IterateAdd(g, s, j, period);
    assert Iterate(g, t, period) == Some(t);
    if n >= j {
      CycleForever(g, t, period, n - j);
      IterateAdd(g, s, j, n - j);
    } else if Iterate(g, s, n).None? {
      IterateGone(g, s, n, j);
      assert false;
    }
  }

  lemma {:induction false} CycleForever(g: Grid, t: Guard, period: nat, n: nat)
    requires period >= 1 && Iterate(g, t, period) == Some(t)
    ensures Iterate(g, t, n).Some?
    decreases n
  {
    if n >= period {
      CycleForever(g, t, period, n - period);
      IterateAdd(g, t, period, n - period);
    } else if Iterate(g, t, n).None? {
      IterateGone(g, t, n, period);
      assert false;
    }
  }

  // ----- part 1 -----

  /** The loop of `part1` with at most `fuel + 1` passes: the cells the
      guard stands on before it leaves, or `None` when the fuel runs out
      first. The start is visited; every other visited cell is inside the
      grid and not a wall. */
  function Walk(g: Grid, s: Guard, fuel: nat): (r: Option<set<Pos>>)
    ensures r.Some? ==> s.position in r.value
    ensures r.Some? ==> forall p :: p in r.value && p != s.position ==> InBounds(p, g.rows, g.cols) && p !in g.walls
    decreases fuel
  {
    match Step(g, s)
    case None => Some({s.position})
    case Some(t) =>
      if fuel == 0 then None
      else
        match Walk(g, t, fuel - 1)
        case None => None
        case Some(v) => Some(v + {s.position})
  }

  /** The cells of the states at passes 0 ..= n. */
  function Trail(g: Grid, s: Guard, n: nat): set<Pos>
  {
    set k | 0 <= k <= n && Iterate(g, s, k).Some? :: Iterate(g, s, k).value.position
  }

  lemma TrailStop(g: Grid, s: Guard, n: nat)
    requires Step(g, s).None?
    ensures Trail(g, s, n) == {s.position}
  {
    assert Iterate(g, s, 0) == Some(s);
    forall p | p in Trail(g, s, n) ensures p == s.position {
      var k :| 0 <= k <= n && Iterate(g, s, k).Some? && Iterate(g, s, k).value.position == p;
      assert k == 0;
    }
  }

  lemma TrailStep(g: Grid, s: Guard, t: Guard, n: nat)
    requires Step(g, s) == Some(t)
    ensures Trail(g, s, n + 1) == Trail(g, t, n) + {s.position}
  {
    assert Iterate(g, s, 0) == Some(s);
    forall p | p in Trail(g, s, n + 1) ensures p in Trail(g, t, n) + {s.position} {
      var k :| 0 <= k <= n + 1 && Iterate(g, s, k).Some? && Iterate(g, s, k).value.position == p;
      if k > 0 {
        assert Iterate(g, s, k) == Iterate(g, t, k - 1);
      }
    }
    forall p | p in Trail(g, t, n) ensures p in Trail(g, s, n + 1) {
      var k :| 0 <= k <= n && Iterate(g, t, k).Some? && Iterate(g, t, k).value.position == p;
      assert Iterate(g, s, k + 1) == Iterate(g, t, k);
    }
  }

  /** The walk ends exactly when the guard leaves within `fuel + 1` passes,
      and then it has visited precisely the cells of the states it went
      through. */
  lemma {:induction false} WalkTrajectory(g: Grid, s: Guard, fuel: nat)
    ensures Walk(g, s, fuel).Some? <==> Iterate(g, s, fuel + 1).None?
    ensures Walk(g, s, fuel).Some? ==> Walk(g, s, fuel).value == Trail(g, s, fuel)
    decreases fuel
  {
    match Step(g, s)
    case None =>
      TrailStop(g, s, fuel);
    case Some(t) =>
      if fuel > 0 {
        WalkTrajectory(g, t, fuel - 1);
        assert Iterate(g, s, fuel + 1) == Iterate(g, t, fuel);
        TrailStep(g, s, t, fuel - 1);
      } else {
        assert Iterate(g, s, 1) == Some(t) by {
          assert Iterate(g, t, 0) == Some(t);
        }
      }
  }

  /** `part1` with a bound on the passes of its loop: `None` when the
      input has no guard (`unwrap` panics) or the walk outlasts the fuel;
      otherwise the number of cells the guard stood on before leaving. At
      least the start is visited, and besides it only grid cells. */
  function Part1(input: seq<char>, fuel: nat): (r: Option<nat>)
    ensures r.Some? <==> (GuardFromBytes(input).Some? &&
      Iterate(FromBytes(input), GuardFromBytes(input).value, fuel + 1).None?)
    ensures r.Some? ==> r.value == |Trail(FromBytes(input), GuardFromBytes(input).value, fuel)|
    ensures r.Some? ==> 1 <= r.value <= FromBytes(input).rows * FromBytes(input).cols + 1
  {
    var g := FromBytes(input);
    match GuardFromBytes(input)
    case None => None
    case Some(s) =>
      WalkTrajectory(g, s, fuel);
      match Walk(g, s, fuel)
      case None => None
      case Some(v) =>
        InBoundsSetCard(v - {s.position}, g.rows, g.cols);
        assert v == (v - {s.position}) + {s.position};
        Some(|v|)
  }

  // ----- part 2 -----

  /** The states pushed onto `initial_path` after the start: one per step
      onto a new cell, none for a turn. */
  function Moves(g: Grid, s: Guard, fuel: nat): (r: Option<seq<Guard>>)
    ensures r.Some? ==> forall i :: 0 <= i < |r.value| ==>
      InBounds(r.value[i].position, g.rows, g.cols) && r.value[i].position !in g.walls
    decreases fuel
  {
    match Step(g, s)
    case None => Some([])
    case Some(t) =>
      if fuel == 0 then None
      else
        match Moves(g, t, fuel - 1)
        case None => None
        case Some(ms) => if t.position == s.position then Some(ms) else Some([t] + ms)
  }

  function Positions(ms: seq<Guard>): set<Pos>
  {
    set i | 0 <= i < |ms| :: ms[i].position
  }

  lemma PositionsCons(x: Guard, ms: seq<Guard>)
    ensures Positions([x] + ms) == {x.position} + Positions(ms)
  {
    var xs := [x] + ms;
    forall p | p in Positions(xs) ensures p in {x.position} + Positions(ms) {
      var i :| 0 <= i < |xs| && xs[i].position == p;
      if i > 0 {
        assert xs[i] == ms[i - 1];
      }
    }
    forall p | p in Positions(ms) ensures p in Positions(xs) {
      var i :| 0 <= i < |ms| && ms[i].position == p;
      assert xs[i + 1] == ms[i];
    }
    assert xs[0] == x;
  }

  /** Both parts trace the same walk: `initial_path` exists exactly when
      the `part1` walk ends, and its cells are the visited cells. */
  lemma {:induction false} MovesWalk(g: Grid, s: Guard, fuel: nat)
    ensures Moves(g, s, fuel).Some? <==> Walk(g, s, fuel).Some?
    ensures Moves(g, s, fuel).Some? ==> Positions([s] + Moves(g, s, fuel).value) == Walk(g, s, fuel).value
    decreases fuel
  {
    match Step(g, s)
    case None =>
      PositionsCons(s, []);
      assert Positions([]) == {};
      assert [s] + [] == [s];
    case Some(t) =>
      if fuel > 0 {
        MovesWalk(g, t, fuel - 1);
        if Moves(g, s, fuel).Some? {
          var ms := Moves(g, t, fuel - 1).value;
          PositionsCons(s, Moves(g, s, fuel).value);
          PositionsCons(t, ms);
          if t.position != s.position {
            assert Moves(g, s, fuel).value == [t] + ms;
          }
        }
      }
  }

  /** `initial_path_deduplicated`: each state whose cell has not been met
      earlier in `ms`, in order. */
  function FirstVisits(ms: seq<Guard>): (r: seq<Guard>)
    ensures Positions(r) == Positions(ms)
    ensures forall i, j :: 0 <= i < j < |r| ==> r[i].position != r[j].position
    ensures forall i :: 0 <= i < |r| ==> r[i] in ms
    decreases |ms|
  {
    if |ms| == 0 then []
    else
      var init := ms[..|ms| - 1];
      var last := ms[|ms| - 1];
      var r0 := FirstVisits(init);
      assert Positions(ms) == Positions(init) + {last.position} by {
        forall p | p in Positions(ms) ensures p in Positions(init) + {last.position} {
          var i :| 0 <= i < |ms| && ms[i].position == p;
          if i < |ms| - 1 {
            assert init[i] == ms[i];
          }
        }
        forall p | p in Positions(init) ensures p in Positions(ms) {
          var i :| 0 <= i < |init| && init[i].position == p;
          assert ms[i] == init[i];
        }
      }
      if last.position in Positions(init) then r0
      else
        var r := r0 + [last];
        assert Positions(r) == Positions(r0) + {last.position} by {
          forall p | p in Positions(r) ensures p in Positions(r0) + {last.position} {
            var i :| 0 <= i < |r| && r[i].position == p;
            if i < |r0| {
              assert r[i] == r0[i];
            }
          }
          forall p | p in Positions(r0) ensures p in Positions(r) {
            var i :| 0 <= i < |r0| && r0[i].position == p;
            assert r[i] == r0[i];
          }
          assert r[|r0|] == last;
        }
        r
  }

  /** Distinct cells make a sequence as long as its set of cells. */
  lemma {:induction false} DistinctPositionsCard(ms: seq<Guard>)
    requires forall i, j :: 0 <= i < j < |ms| ==> ms[i].position != ms[j].position
    ensures |Positions(ms)| == |ms|
    decreases |ms|
  {
    if |ms| > 0 {
      var init := ms[..|ms| - 1];
      DistinctPositionsCard(init);
      assert Positions(ms) == Positions(init) + {ms[|ms| - 1].position} by {
        forall p | p in Positions(ms) ensures p in Positions(init) + {ms[|ms| - 1].position} {
          var i :| 0 <= i < |ms| && ms[i].position == p;
          if i < |ms| - 1 {
            assert init[i] == ms[i];
          }
        }
        forall p | p in Positions(init) ensures p in Positions(ms) {
          var i :| 0 <= i < |init| && init[i].position == p;
          assert ms[i] == init[i];
        }
      }
      assert ms[|ms| - 1].position !in Positions(init);
    } else {
      assert Positions(ms) == {};
    }
  }

  /** The inner loop of `part2` with at most `fuel + 1` passes: `Some(true)`
      when a step lands on a state already in `seen`, `Some(false)` when the
      guard leaves, `None` when the fuel runs out first. Turns are not
      recorded, as in the source. */
  function LoopsFrom(g: Grid, s: Guard, seen: set<Guard>, fuel: nat): (r: Option<bool>)
    ensures r == Some(false) ==> Iterate(g, s, fuel + 1).None?
    decreases fuel
  {
    match Step(g, s)
    case None => Some(false)
    case Some(t) =>
      if fuel == 0 then None
      else if t.position == s.position then LoopsFrom(g, t, seen, fuel - 1)
      else if t in seen then Some(true)
      else LoopsFrom(g, t, seen + {t}, fuel - 1)
  }

  /** Pass k lands on a state in `seen` or on a state of an earlier pass
      (from pass 1 on). A trapped guard is one that does so; in the second
      case it never leaves (`RepeatNeverLeaves`). */
  predicate Revisits(g: Grid, s: Guard, seen: set<Guard>, k: nat)
  {
    Iterate(g, s, k).Some? &&
    (Iterate(g, s, k).value in seen || exists j :: 1 <= j < k && Iterate(g, s, j) == Iterate(g, s, k))
  }

  lemma {:induction false} LoopsFromSound(g: Grid, s: Guard, seen: set<Guard>, fuel: nat)
    requires LoopsFrom(g, s, seen, fuel) == Some(true)
    ensures exists k :: 1 <= k <= fuel + 1 && Revisits(g, s, seen, k)
    decreases fuel
  {
    var t := Step(g, s).value;
    assert Iterate(g, s, 1) == Some(t) by {
      assert Iterate(g, t, 0) == Some(t);
    }
    if t.position == s.position {
      LoopsFromSound(g, t, seen, fuel - 1);
      var k :| 1 <= k <= fuel && Revisits(g, t, seen, k);
      assert Iterate(g, s, k + 1) == Iterate(g, t, k);
      if Iterate(g, t, k).value !in seen {
        var j :| 1 <= j < k && Iterate(g, t, j) == Iterate(g, t, k);
        assert Iterate(g, s, j + 1) == Iterate(g, t, j);
      }
      assert Revisits(g, s, seen, k + 1);
    } else if t in seen {
      assert Revisits(g, s, seen, 1);
    } else {
      LoopsFromSound(g, t, seen + {t}, fuel - 1);
      var k :| 1 <= k <= fuel && Revisits(g, t, seen + {t}, k);
      assert Iterate(g, s, k + 1) == Iterate(g, t, k);
      if Iterate(g, t, k).value !in seen {
        if Iterate(g, t, k).value == t {
          assert Iterate(g, s, 1) == Iterate(g, s, k + 1);
        } else {
          var j :| 1 <= j < k && Iterate(g, t, j) == Iterate(g, t, k);
          assert Iterate(g, s, j + 1) == Iterate(g, t, j);
        }
      }
      assert Revisits(g, s, seen, k + 1);
    }
  }

  function IndexOf(path: seq<Guard>, c: Guard): (i: nat)
    requires c in path
    ensures i < |path| && path[i] == c
    ensures forall k :: 0 <= k < i ==> path[k] != c
  {
    if path[0] == c then 0 else 1 + IndexOf(path[1..], c)
  }

  /** One candidate of `part2`: wall off the candidate's cell and restart
      from the state before it, having seen every earlier state. `None`
      where the source panics (candidate at index 0, cell already a wall)
      or the fuel runs out. */
  function TrapsGuard(g: Grid, path: seq<Guard>, c: Guard, fuel: nat): (r: Option<bool>)
    requires c in path
  {
    var i := IndexOf(path, c);
    if i == 0 then None
    else
      match ClonedWithExtraCell(g, c.position)
      case None => None
      case Some(g') =>
        var s := path[i - 1];
        LoopsFrom(g', s, (set k | 0 <= k < i :: path[k]) + {s}, fuel)
  }

  /** Whether the extra wall at candidate `c` traps the guard. */
  function Traps(g: Grid, path: seq<Guard>, fuel: nat): Guard -> bool
  {
    c => c in path && TrapsGuard(g, path, c, fuel) == Some(true)
  }

  /** The verdict of every candidate, in order. */
  function Verdicts(g: Grid, path: seq<Guard>, cands: seq<Guard>, fuel: nat): (r: seq<Option<bool>>)
    requires forall i :: 0 <= i < |cands| ==> cands[i] in path
    ensures |r| == |cands| && forall i :: 0 <= i < |cands| ==> r[i] == TrapsGuard(g, path, cands[i], fuel)
  {
    seq(|cands|, i requires 0 <= i < |cands| => TrapsGuard(g, path, cands[i], fuel))
  }

  /** The candidate loop of `part2`, counting the trapping walls: the
      count is the number of candidates that trap the guard. */
  function CountTraps(g: Grid, path: seq<Guard>, cands: seq<Guard>, fuel: nat): (r: Option<nat>)
    requires forall i :: 0 <= i < |cands| ==> cands[i] in path
    ensures r.Some? <==> forall i :: 0 <= i < |cands| ==> TrapsGuard(g, path, cands[i], fuel).Some?
    ensures r.Some? ==> r.value == |Hits(cands, Traps(g, path, fuel))| <= |cands|
  {
    var vs := Verdicts(g, path, cands, fuel);
    VerdictHits(g, path, cands, fuel);
    HitsBound(cands, Traps(g, path, fuel));
    CountTrue(vs)
  }

  lemma VerdictHits(g: Grid, path: seq<Guard>, cands: seq<Guard>, fuel: nat)
    requires forall i :: 0 <= i < |cands| ==> cands[i] in path
    ensures Hits(Verdicts(g, path, cands, fuel), IsTrue) == Hits(cands, Traps(g, path, fuel))
  {
  }

  /** `part2`: every extra wall is tried at a distinct visited cell, so at
      most as many walls trap the guard as `part1` counts cells. */
  function Part2(input: seq<char>, fuel: nat): (r: Option<nat>)
    ensures r.Some? <==> (GuardFromBytes(input).Some? && Moves(FromBytes(input), GuardFromBytes(input).value, fuel).Some? &&
      var s := GuardFromBytes(input).value;
      var ms := Moves(FromBytes(input), s, fuel).value;
      forall i :: 0 <= i < |FirstVisits(ms)| ==>
        FirstVisits(ms)[i] in [s] + ms && TrapsGuard(FromBytes(input), [s] + ms, FirstVisits(ms)[i], fuel).Some?)
    ensures r.Some? ==> Part1(input, fuel).Some? && r.value <= Part1(input, fuel).value
    ensures r.Some? ==> GuardFromBytes(input).Some? && Moves(FromBytes(input), GuardFromBytes(input).value, fuel).Some?
    ensures r.Some? ==>
      var s := GuardFromBytes(input).value;
      var ms := Moves(FromBytes(input), s, fuel).value;
      r.value == |Hits(FirstVisits(ms), Traps(FromBytes(input), [s] + ms, fuel))|
  {
    var g := FromBytes(input);
    match GuardFromBytes(input)
    case None => None
    case Some(s) =>
      match Moves(g, s, fuel)
      case None => None
      case Some(ms) =>
        var path := [s] + ms;
        var cands := FirstVisits(ms);
        CandidatesOnPath(s, ms);
        match CountTraps(g, path, cands, fuel)
        case None => None
        case Some(n) =>
          CandidatesBound(g, s, fuel);
          Some(n)
  }

  /** The candidates sit on distinct cells the walk visits. */
  lemma CandidatesBound(g: Grid, s: Guard, fuel: nat)
    requires Moves(g, s, fuel).Some?
    ensures Walk(g, s, fuel).Some?
    ensures |FirstVisits(Moves(g, s, fuel).value)| <= |Walk(g, s, fuel).value|
  {
    var ms := Moves(g, s, fuel).value;
    var path := [s] + ms;
    var cands := FirstVisits(ms);
    MovesWalk(g, s, fuel);
    DistinctPositionsCard(cands);
    assert Positions(ms) <= Positions(path) by {
      forall p | p in Positions(ms) ensures p in Positions(path) {
        var k :| 0 <= k < |ms| && ms[k].position == p;
        assert path[k + 1] == ms[k];
      }
    }
    SubsetCard(Positions(cands), Walk(g, s, fuel).value);
  }

  lemma CandidatesOnPath(s: Guard, ms: seq<Guard>)
    ensures forall i :: 0 <= i < |FirstVisits(ms)| ==> FirstVisits(ms)[i] in [s] + ms
  {
    var cands := FirstVisits(ms);
    forall i | 0 <= i < |cands| ensures cands[i] in [s] + ms {
      assert cands[i] in ms;
    }
  }
}
