/** Day 15: a robot pushing boxes around a warehouse. The map comes
    first, then a blank line, then the robot's moves; a move into a run
    of boxes pushes the whole run when there is a free cell behind it,
    which the model sees as the first box jumping to that free cell.
    Only the narrow warehouse of part one is modelled. */
module Day15 {
  import opened Common
  import Text

  datatype Instruction = Left | Right | Up | Down

  datatype Cell = Wall | Box | Empty

  /** `Instruction::from_byte`; `None` for any other byte, where the
      source panics. */
  function FromByte(b: char): (r: Option<Instruction>)
    ensures r.Some? <==> b == '<' || b == '>' || b == '^' || b == 'v'
  {
    match b
    case '<' => Some(Left)
    case '>' => Some(Right)
    case '^' => Some(Up)
    case 'v' => Some(Down)
    case _ => None
  }

  /** `Instruction::get_dir`: (row, column) offsets. */
  function Dir(i: Instruction): (d: (int, int))
    ensures Abs(d.0) + Abs(d.1) == 1
  {
    match i
    case Left => (0, -1)
    case Right => (0, 1)
    case Up => (-1, 0)
    case Down => (1, 0)
  }

  /** Each move is a unit step along one axis, and no two moves share a
      step. */
  lemma DirUnit(i: Instruction, j: Instruction)
    ensures (Dir(i).0 == 0) != (Dir(i).1 == 0)
    ensures Dir(i) == Dir(j) <==> i == j
  {
  }

  /** The cell one step from `pos` in direction `i`. */
  function Step(pos: (int, int), i: Instruction): (int, int)
  {
    (pos.0 + Dir(i).0, pos.1 + Dir(i).1)
  }

  /** The cell `k` steps from `pos` in direction `i`. */
  function Ray(pos: (int, int), i: Instruction, k: int): (p: (int, int))
    ensures p == (pos.0 + k * Dir(i).0, pos.1 + k * Dir(i).1)
  {
    match i
    case Left => (pos.0, pos.1 - k)
    case Right => (pos.0, pos.1 + k)
    case Up => (pos.0 - k, pos.1)
    case Down => (pos.0 + k, pos.1)
  }

  // ----- the warehouse -----

  datatype Grid = Grid(cols: nat, cells: seq<Cell>, robot: (int, int))

  /** A map with no columns has no cells: the map's first line gives
      `cols` and is its first row. */
  predicate Valid(g: Grid)
  {
    g.cols > 0 || |g.cells| == 0
  }

  /** `row * cols + col`, the index `get` and `set` use. */
  function Index(g: Grid, pos: (int, int)): (ix: int)
    ensures 0 <= pos.0 && 0 <= pos.1 ==> ix >= 0
  {
    pos.0 * g.cols + pos.1
  }

  /** `Grid::get`; `None` where indexing panics. */
  function Get(g: Grid, pos: (int, int)): (r: Option<Cell>)
    ensures r.Some? <==> 0 <= pos.0 && 0 <= pos.1 && Index(g, pos) < |g.cells|
    ensures r.Some? ==> r.value == g.cells[Index(g, pos)]
  {
    if pos.0 < 0 || pos.1 < 0 || Index(g, pos) >= |g.cells| then None
    else Some(g.cells[Index(g, pos)])
  }

  /** One step moves the index by one cell or by one row. */
  function Stride(g: Grid, i: Instruction): int
  {
    match i
    case Left => -1
    case Right => 1
    case Up => -(g.cols as int)
    case Down => g.cols
  }

  lemma IndexStep(g: Grid, pos: (int, int), i: Instruction)
    ensures Index(g, Step(pos, i)) == Index(g, pos) + Stride(g, i)
  {
    match i
    case Up =>
      assert (pos.0 - 1) * g.cols == pos.0 * g.cols - g.cols;
    case Down =>
      assert (pos.0 + 1) * g.cols == pos.0 * g.cols + g.cols;
    case _ =>
  }

  /** What lies beyond a run of boxes. */
  datatype Ahead = Blocked | Space(at: (int, int)) | Outside

  /** How far a scan in direction `i` can still go. */
  function Room(g: Grid, pos: (int, int), i: Instruction): int
  {
    match i
    case Left => pos.1
    case Up => pos.0
    case _ => |g.cells| - Index(g, pos)
  }

  /** `Grid::next_empty_pos`: step over boxes until a wall (`Blocked`) or
      an empty cell (`Space`). `Outside` where `get` would panic. */
  function NextEmptyPos(g: Grid, pos: (int, int), i: Instruction): (r: Ahead)
    requires Valid(g)
    ensures r.Space? ==> Get(g, r.at) == Some(Empty)
    decreases Room(g, pos, i)
  {
    var next := Step(pos, i);
    match Get(g, next)
    case None => Outside
    case Some(Wall) => Blocked
    case Some(Empty) => Space(next)
    case Some(Box) =>
      IndexStep(g, pos, i);
      NextEmptyPos(g, next, i)
  }

  /** The cells strictly between `pos` and `k` steps on are boxes. */
  ghost predicate BoxesUpTo(g: Grid, pos: (int, int), i: Instruction, k: nat)
  {
    forall j :: 1 <= j < k ==> Get(g, Ray(pos, i, j)) == Some(Box)
  }

  /** `next_empty_pos` finds the first cell past a run of boxes: an empty
      one gives `Space`, a wall gives `Blocked`. */
  lemma {:induction false} NextEmptyPosRun(g: Grid, pos: (int, int), i: Instruction)
    requires Valid(g)
    ensures var r := NextEmptyPos(g, pos, i);
      r.Space? ==> exists k: nat :: k >= 1 && r.at == Ray(pos, i, k) && BoxesUpTo(g, pos, i, k)
    ensures var r := NextEmptyPos(g, pos, i);
      r.Blocked? ==> exists k: nat :: k >= 1 && BoxesUpTo(g, pos, i, k) && Get(g, Ray(pos, i, k)) == Some(Wall)
    decreases Room(g, pos, i)
  {
    var next := Step(pos, i);
    assert next == Ray(pos, i, 1);
    assert BoxesUpTo(g, pos, i, 1);
    if Get(g, next) == Some(Box) {
      IndexStep(g, pos, i);
      NextEmptyPosRun(g, next, i);
      var r := NextEmptyPos(g, next, i);
      if r.Space? {
        var k: nat :| k >= 1 && r.at == Ray(next, i, k) && BoxesUpTo(g, next, i, k);
        ShiftRun(g, pos, i, k);
      } else if r.Blocked? {
        var k: nat :| k >= 1 && BoxesUpTo(g, next, i, k) && Get(g, Ray(next, i, k)) == Some(Wall);
        ShiftRun(g, pos, i, k);
      }
    }
  }

  /** A run of boxes seen from one step further back is one box longer. */
  lemma ShiftRun(g: Grid, pos: (int, int), i: Instruction, k: nat)
    requires Get(g, Step(pos, i)) == Some(Box) && BoxesUpTo(g, Step(pos, i), i, k)
    ensures BoxesUpTo(g, pos, i, k + 1)
    ensures Ray(Step(pos, i), i, k) == Ray(pos, i, k + 1)
  {
    forall j | 1 <= j < k + 1
      ensures Get(g, Ray(pos, i, j)) == Some(Box)
    {
      if j > 1 {
        assert Ray(pos, i, j) == Ray(Step(pos, i), i, j - 1);
      }
    }
  }

  /** The free cell lies strictly further along the scan than `pos`, in
      index order too. */
  lemma {:induction false} NextEmptyPosBeyond(g: Grid, pos: (int, int), i: Instruction)
    requires Valid(g) && NextEmptyPos(g, pos, i).Space?
    ensures var e := NextEmptyPos(g, pos, i).at;
      if Stride(g, i) > 0 then Index(g, e) > Index(g, pos) else Index(g, e) < Index(g, pos)
    decreases Room(g, pos, i)
  {
    var next := Step(pos, i);
    IndexStep(g, pos, i);
    if Get(g, next) == Some(Box) {
      NextEmptyPosBeyond(g, next, i);
    }
  }

  lemma StrideNonZero(g: Grid, i: Instruction)
    requires Valid(g) && |g.cells| > 0
    ensures Stride(g, i) != 0
  {
  }

  /** `Grid::move_robot`: a wall stops the robot, an empty cell lets it
      step, and a run of boxes is pushed when there is a free cell behind
      it: the cell the robot enters empties and the free cell gets a box.
      `None` where `get` panics. */
  function MoveRobot(g: Grid, i: Instruction): (r: Option<Grid>)
    requires Valid(g)
    ensures r.Some? ==> r.value.cols == g.cols && |r.value.cells| == |g.cells| && Valid(r.value)
    ensures r.Some? ==> r.value.robot == g.robot || r.value.robot == Step(g.robot, i)
  {
    var next := Step(g.robot, i);
    match Get(g, next)
    case None => None
    case Some(Wall) => Some(g)
    case Some(Empty) => Some(g.(robot := next))
    case Some(Box) =>
      match NextEmptyPos(g, next, i)
      case Outside => None
      case Blocked => Some(g)
      case Space(e) =>
        Some(Grid(g.cols, g.cells[Index(g, next) := Empty][Index(g, e) := Box], next))
  }

  /** A wall ahead, or a run of boxes with a wall behind it, leaves the
      warehouse exactly as it was. */
  lemma MoveBlocked(g: Grid, i: Instruction)
    requires Valid(g)
    requires var next := Step(g.robot, i);
      Get(g, next) == Some(Wall) || (Get(g, next) == Some(Box) && NextEmptyPos(g, next, i).Blocked?)
    ensures MoveRobot(g, i) == Some(g)
  {
  }

  /** Into an empty cell, only the robot moves, by one step. */
  lemma MoveIntoEmpty(g: Grid, i: Instruction)
    requires Valid(g) && Get(g, Step(g.robot, i)) == Some(Empty)
    ensures MoveRobot(g, i) == Some(Grid(g.cols, g.cells, Step(g.robot, i)))
  {
  }

  /** A push: the robot steps into the first box's cell, which empties,
      the free cell past the run gets a box, and no other cell changes. */
  lemma MovePush(g: Grid, i: Instruction)
    requires Valid(g)
    requires Get(g, Step(g.robot, i)) == Some(Box) && NextEmptyPos(g, Step(g.robot, i), i).Space?
    ensures var next := Step(g.robot, i); var e := NextEmptyPos(g, next, i).at;
      var r := MoveRobot(g, i);
      r.Some? && r.value.robot == next && Index(g, next) != Index(g, e) &&
      r.value.cells[Index(g, next)] == Empty && r.value.cells[Index(g, e)] == Box &&
      (forall k :: 0 <= k < |g.cells| && k != Index(g, next) && k != Index(g, e) ==> r.value.cells[k] == g.cells[k])
  {
    var next := Step(g.robot, i);
    var e := NextEmptyPos(g, next, i).at;
    NextEmptyPosBeyond(g, next, i);
    var a, b := Index(g, next), Index(g, e);
    assert a != b;
    assert MoveRobot(g, i) == Some(Grid(g.cols, g.cells[a := Empty][b := Box], next));
  }

  /** Moving keeps the number of boxes and every wall. */
  lemma MoveKeeps(g: Grid, i: Instruction)
    requires Valid(g) && MoveRobot(g, i).Some?
    ensures var h := MoveRobot(g, i).value;
      Count(h.cells, Box) == Count(g.cells, Box) &&
      forall k :: 0 <= k < |g.cells| ==> (h.cells[k] == Wall <==> g.cells[k] == Wall)
  {
    var next := Step(g.robot, i);
    if Get(g, next) == Some(Box) && NextEmptyPos(g, next, i).Space? {
      var e := NextEmptyPos(g, next, i).at;
      MovePush(g, i);
      BoxJump(g.cells, Index(g, next), Index(g, e));
    }
  }

  /** Emptying one box's cell and filling an empty one keeps the boxes. */
  lemma BoxJump(s: seq<Cell>, a: nat, b: nat)
    requires a < |s| && b < |s| && s[a] == Box && s[b] == Empty
    ensures Count(s[a := Empty][b := Box], Box) == Count(s, Box)
  {
    assert multiset(s[a := Empty]) == multiset(s) - multiset{Box} + multiset{Empty};
  }

  /** The robot stands on an empty cell. */
  predicate OnEmpty(g: Grid)
  {
    Get(g, g.robot) == Some(Empty)
  }

  /** A robot on an empty cell is on an empty cell after any move. */
  lemma MoveStaysOnEmpty(g: Grid, i: Instruction)
    requires Valid(g) && OnEmpty(g) && MoveRobot(g, i).Some?
    ensures OnEmpty(MoveRobot(g, i).value)
  {
    var next := Step(g.robot, i);
    if Get(g, next) == Some(Box) && NextEmptyPos(g, next, i).Space? {
      MovePush(g, i);
    }
  }

  // ----- reading the input -----

  /** The map: the lines before the first empty one. */
  function MapLines(lines: seq<seq<char>>): (r: seq<seq<char>>)
    ensures |r| <= |lines| && forall k :: 0 <= k < |r| ==> r[k] == lines[k] && |r[k]| > 0
  {
    if |lines| == 0 || |lines[0]| == 0 then [] else [lines[0]] + MapLines(lines[1..])
  }

  /** The moves: the lines after the first empty one, as
      `skip_while(|line| !line.is_empty()).skip(1)` leaves them. */
  function MoveLines(lines: seq<seq<char>>): (r: seq<seq<char>>)
  {
    if |lines| == 0 then []
    else if |lines[0]| == 0 then lines[1..]
    else MoveLines(lines[1..])
  }

  /** The map, the empty line and the moves make up the whole text. */
  lemma {:induction false} LinesSplit(lines: seq<seq<char>>)
    requires exists k :: 0 <= k < |lines| && |lines[k]| == 0
    ensures lines == MapLines(lines) + [[]] + MoveLines(lines)
  {
    if |lines[0]| > 0 {
      var k :| 0 <= k < |lines| && |lines[k]| == 0;
      assert |lines[1..][k - 1]| == 0;
      LinesSplit(lines[1..]);
    }
  }

  /** The cell a map byte stands for; `None` where the source panics. */
  function CellOf(b: char): (r: Option<Cell>)
    ensures r.Some? <==> b == '#' || b == 'O' || b == '.' || b == '@'
  {
    match b
    case '#' => Some(Wall)
    case 'O' => Some(Box)
    case '.' => Some(Empty)
    case '@' => Some(Empty)
    case _ => None
  }

  /** `Grid::from_bytes`: the cells of the map lines laid end to end,
      `cols` from the first line of the input, and the robot where the
      last `@` is. `None` at an unknown map byte. */
  function FromBytes(input: seq<char>): (r: Option<Grid>)
    ensures r.Some? ==> Valid(r.value)
  {
    var rows := MapLines(Text.Split(input, '\n'));
    FirstLineIsFirstRow(input);
    match Text.MapBytes(Text.Concat(rows), CellOf)
    case None => None
    case Some(cells) =>
      assert |rows| == 0 ==> Text.Concat(rows) == [];
      Some(Grid(|Text.FirstLine(input)|, cells, Text.LastPosition(rows, '@')))
  }

  /** On a rectangular map with a robot the
      robot stands on an empty cell: `@` reads as `Empty`. */
  lemma FromBytesRobot(input: seq<char>)
    requires FromBytes(input).Some?
    ensures var rows := MapLines(Text.Split(input, '\n'));
      Text.Rectangular(rows, |Text.FirstLine(input)|) && (exists r :: 0 <= r < |rows| && '@' in rows[r]) ==>
      OnEmpty(FromBytes(input).value)
  {
    var rows := MapLines(Text.Split(input, '\n'));
    var g := FromBytes(input).value;
    FirstLineIsFirstRow(input);
    if Text.Rectangular(rows, g.cols) && exists r :: 0 <= r < |rows| && '@' in rows[r] {
      RobotCell(rows, g.cols, g.cells);
    }
  }

  /** The robot's cell, read from a rectangular map with an `@`, is
      empty. */
  lemma RobotCell(rows: seq<seq<char>>, cols: nat, cells: seq<Cell>)
    requires Text.Rectangular(rows, cols) && exists r :: 0 <= r < |rows| && '@' in rows[r]
    requires Text.MapBytes(Text.Concat(rows), CellOf) == Some(cells)
    ensures OnEmpty(Grid(cols, cells, Text.LastPosition(rows, '@')))
  {
    var p := Text.LastPosition(rows, '@');
    Text.MapAt(rows, cols, CellOf, cells, p.0, p.1);
    var r: nat, c: nat := p.0, p.1;
    assert CellOf(rows[r][c]) == Some(Empty);
    assert Index(Grid(cols, cells, p), p) == r * cols + c;
  }

  /** The first line of the input is the first map row when there is one,
      and empty when there is none. */
  lemma FirstLineIsFirstRow(input: seq<char>)
    ensures var rows := MapLines(Text.Split(input, '\n'));
      (|rows| > 0 ==> Text.FirstLine(input) == rows[0]) && (|rows| == 0 ==> Text.FirstLine(input) == [])
  {
    Text.FirstLineSplit(input);
  }

  // ----- running the moves -----

  /** The robot's moves, one after the other; `None` if one panics. */
  function Run(g: Grid, moves: seq<Instruction>): (r: Option<Grid>)
    requires Valid(g)
    ensures r.Some? ==> r.value.cols == g.cols && |r.value.cells| == |g.cells| && Valid(r.value)
    decreases |moves|
  {
    if |moves| == 0 then Some(g)
    else
      match MoveRobot(g, moves[0])
      case None => None
      case Some(h) => Run(h, moves[1..])
  }

  /** The whole run keeps the boxes, the walls, and the robot on an empty
      cell. */
  lemma {:induction false} RunKeeps(g: Grid, moves: seq<Instruction>)
    requires Valid(g) && Run(g, moves).Some?
    ensures var h := Run(g, moves).value;
      Count(h.cells, Box) == Count(g.cells, Box) &&
      (forall k :: 0 <= k < |g.cells| ==> (h.cells[k] == Wall <==> g.cells[k] == Wall)) &&
      (OnEmpty(g) ==> OnEmpty(h))
    decreases |moves|
  {
    if |moves| > 0 {
      var h := MoveRobot(g, moves[0]).value;
      MoveKeeps(g, moves[0]);
      if OnEmpty(g) {
        MoveStaysOnEmpty(g, moves[0]);
      }
      RunKeeps(h, moves[1..]);
    }
  }

  // ----- the score -----

  /** The GPS coordinate of cell `ix`: 100 per row and 1 per column. */
  function Gps(ix: nat, cols: nat): nat
    requires cols > 0
  {
    100 * (ix / cols) + ix % cols
  }

  /** A cell at row `r` and column `c` has coordinate `100 * r + c`. */
  lemma GpsCoords(r: nat, c: nat, cols: nat)
    requires c < cols
    ensures Gps(r * cols + c, cols) == 100 * r + c
  {
    DivModOf(r, c, cols);
  }

  lemma DivModOf(r: nat, c: nat, cols: nat)
    requires c < cols
    ensures (r * cols + c) / cols == r && (r * cols + c) % cols == c
  {
    var ix := r * cols + c;
    var q, m := ix / cols, ix % cols;
    assert q * cols + m == r * cols + c;
    if q > r {
      MulLe(r + 1, q, cols);
    } else if q < r {
      MulLe(q + 1, r, cols);
    }
  }

  /** The GPS coordinates of the boxes among the first `n` cells. */
  function ScoreBelow(cells: seq<Cell>, cols: nat, n: nat): nat
    requires cols > 0 && n <= |cells|
  {
    if n == 0 then 0
    else ScoreBelow(cells, cols, n - 1) + (if cells[n - 1] == Box then Gps(n - 1, cols) else 0)
  }

  /** `Grid::score`: the sum of every box's GPS coordinate. */
  function Score(g: Grid): nat
    requires Valid(g)
  {
    if |g.cells| == 0 then 0 else ScoreBelow(g.cells, g.cols, |g.cells|)
  }

  /** Changing one cell changes the score by that cell's box, if any. */
  lemma {:induction false} ScoreUpdate(cells: seq<Cell>, cols: nat, n: nat, a: nat, v: Cell)
    requires cols > 0 && n <= |cells| && a < |cells|
    ensures ScoreBelow(cells[a := v], cols, n) + (if a < n && cells[a] == Box then Gps(a, cols) else 0)
      == ScoreBelow(cells, cols, n) + (if a < n && v == Box then Gps(a, cols) else 0)
  {
    if n > 0 {
      ScoreUpdate(cells, cols, n - 1, a, v);
    }
  }

  /** A push takes the first box's coordinate out of the score and puts
      the free cell's in. */
  lemma PushScore(g: Grid, i: Instruction)
    requires Valid(g) && |g.cells| > 0
    requires Get(g, Step(g.robot, i)) == Some(Box) && NextEmptyPos(g, Step(g.robot, i), i).Space?
    ensures var next := Step(g.robot, i); var e := NextEmptyPos(g, next, i).at;
      Score(MoveRobot(g, i).value) + Gps(Index(g, next), g.cols) == Score(g) + Gps(Index(g, e), g.cols)
  {
    var next := Step(g.robot, i);
    var e := NextEmptyPos(g, next, i).at;
    MovePush(g, i);
    NextEmptyPosRun(g, next, i);
    var a, b := Index(g, next), Index(g, e);
    var n := |g.cells|;
    ScoreUpdate(g.cells, g.cols, n, a, Empty);
    ScoreUpdate(g.cells[a := Empty], g.cols, n, b, Box);
  }

  /** The moves of the input: the lines after the map, end to end. */
  function Moves(input: seq<char>): (r: Option<seq<Instruction>>)
  {
    Text.MapBytes(Text.Concat(MoveLines(Text.Split(input, '\n'))), FromByte)
  }

  /** `part1`: read the map and the moves, run them, score the boxes.
      `None` where the source panics. */
  function Part1(input: seq<char>): (r: Option<nat>)
    ensures r.Some? <==>
      (FromBytes(input).Some? && Moves(input).Some? && Run(FromBytes(input).value, Moves(input).value).Some?)
    ensures r.Some? ==> r.value == Score(Run(FromBytes(input).value, Moves(input).value).value)
  {
    match FromBytes(input)
    case None => None
    case Some(g) =>
      match Moves(input)
      case None => None
      case Some(moves) =>
        match Run(g, moves)
        case None => None
        case Some(h) => Some(Score(h))
  }
}
