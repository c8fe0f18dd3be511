/** The maze grid two puzzles share (days 16 and 20): walls and empty
    cells in row-major order, the start and end marked `S` and `E`, read
    from the puzzle text the same way in both. */
module Maze {
  import opened Common
  import Text

  datatype Cell = Wall | Empty

  /** `cols` is the length of the first line and `rows` the number of
      whole rows the cells fill. */
  datatype Grid = Grid(cols: nat, rows: nat, cells: seq<Cell>, start: Pos, end: Pos)

  /** A grid `from_bytes` can build: the division by `cols` did not
      panic. */
  predicate Valid(g: Grid)
  {
    g.cols > 0
  }

  /** `Grid::to_index`. */
  function Index(g: Grid, pos: Pos): (ix: int)
    ensures 0 <= pos.0 && 0 <= pos.1 ==> ix >= 0
  {
    pos.0 * g.cols + pos.1
  }

  /** `Grid::get`; `None` where indexing panics. */
  function Get(g: Grid, pos: Pos): (r: Option<Cell>)
    ensures r.Some? <==> 0 <= pos.0 && 0 <= pos.1 && Index(g, pos) < |g.cells|
    ensures r.Some? ==> r.value == g.cells[Index(g, pos)]
  {
    if pos.0 < 0 || pos.1 < 0 || Index(g, pos) >= |g.cells| then None
    else Some(g.cells[Index(g, pos)])
  }

  /** The cell a maze byte stands for; `None` where the source panics. */
  function CellOf(b: char): (r: Option<Cell>)
    ensures r.Some? <==> b == '#' || b == '.' || b == 'S' || b == 'E'
    ensures r == Some(Wall) <==> b == '#'
  {
    match b
    case '#' => Some(Wall)
    case '.' => Some(Empty)
    case 'S' => Some(Empty)
    case 'E' => Some(Empty)
    case _ => None
  }

  /** `Grid::from_bytes`: every line's cells end to end, the start and
      the end where the last `S` and `E` are, `cols` from the first line
      and `rows` the whole rows the cells fill. `None` at an unknown byte
      or an empty first line, where the source panics. */
  function FromBytes(input: seq<char>): (r: Option<Grid>)
    ensures r.Some? <==> |Text.FirstLine(input)| > 0 && Text.MapBytes(Text.Concat(Text.Split(input, '\n')), CellOf).Some?
    ensures r.Some? ==> Valid(r.value) && r.value.cols == |Text.FirstLine(input)|
    ensures r.Some? ==> r.value.rows == WholeRows(|r.value.cells|, r.value.cols)
  {
    var lines := Text.Split(input, '\n');
    var cols := |Text.FirstLine(input)|;
    match Text.MapBytes(Text.Concat(lines), CellOf)
    case None => None
    case Some(cells) =>
      if cols == 0 then None
      else
        Some(Grid(cols, WholeRows(|cells|, cols), cells, Text.LastPosition(lines, 'S'), Text.LastPosition(lines, 'E')))
  }

  /** `cells.len() / cols`: how many whole rows `n` cells fill. */
  function WholeRows(n: nat, cols: nat): (q: nat)
    requires cols > 0
    ensures q * cols <= n < (q + 1) * cols
  {
    assert n == (n / cols) * cols + n % cols;
    n / cols
  }

  /** On a rectangular maze the start and the end, where they are
      marked, stand on empty cells. */
  lemma MarkersOnEmpty(input: seq<char>)
    requires FromBytes(input).Some?
    ensures var lines, g := Text.Split(input, '\n'), FromBytes(input).value;
      Text.Rectangular(lines, g.cols) ==>
        ((exists r :: 0 <= r < |lines| && 'S' in lines[r]) ==> Get(g, g.start) == Some(Empty)) &&
        ((exists r :: 0 <= r < |lines| && 'E' in lines[r]) ==> Get(g, g.end) == Some(Empty))
  {
    var lines, g := Text.Split(input, '\n'), FromBytes(input).value;
    if Text.Rectangular(lines, g.cols) {
      if exists r :: 0 <= r < |lines| && 'S' in lines[r] {
        MarkerCell(lines, g, 'S', g.start);
      }
      if exists r :: 0 <= r < |lines| && 'E' in lines[r] {
        MarkerCell(lines, g, 'E', g.end);
      }
    }
  }

  lemma MarkerCell(lines: seq<seq<char>>, g: Grid, b: char, p: Pos)
    requires Valid(g) && Text.Rectangular(lines, g.cols) && (exists r :: 0 <= r < |lines| && b in lines[r])
    requires CellOf(b) == Some(Empty) && p == Text.LastPosition(lines, b)
    requires Text.MapBytes(Text.Concat(lines), CellOf) == Some(g.cells)
    ensures Get(g, p) == Some(Empty)
  {
    var r: nat, c: nat := p.0, p.1;
    Text.MapAt(lines, g.cols, CellOf, g.cells, r, c);
    assert Index(g, p) == r * g.cols + c;
  }
}
