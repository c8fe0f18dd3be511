/** Day 4: a word search for XMAS in eight directions, and for two MAS
    crossing on the diagonals of an `A`. */
module Day04 {
  import opened Common
  import Text
  import Sorting

  datatype Grid = Grid(rows: nat, cols: nat, cells: seq<char>)

  /** `rows` is `cells.len() / cols`, so every in-bounds cell exists. */
  predicate Valid(g: Grid)
  {
    g.rows * g.cols <= |g.cells|
  }

  /** `Grid::from_bytes`: the width of the first line, the text without
      newlines, and as many full rows as fit. An empty first line divides
      by zero, which is `None` here. */
  function FromBytes(bytes: seq<char>): (r: Option<Grid>)
    ensures r.Some? <==> |Text.FirstLine(bytes)| > 0
    ensures r.Some? ==> Valid(r.value) && r.value.cols == |Text.FirstLine(bytes)| && '\n' !in r.value.cells
  {
    var cols := |Text.FirstLine(bytes)|;
    if cols == 0 then None
    else
      var cells := Text.RemoveNewlines(bytes);
      assert (|cells| / cols) * cols <= |cells|;
      Some(Grid(|cells| / cols, cols, cells))
  }

  lemma IndexInRange(rows: nat, cols: nat, row: nat, col: nat)
    requires row < rows && col < cols
    ensures row * cols + col < rows * cols
  {
    assert (row + 1) * cols <= rows * cols;
  }

  /** `get_cell`: the stored byte inside the grid, '.' outside it. */
  function GetCell(g: Grid, row: int, col: int): (b: char)
    requires Valid(g)
    ensures InBounds((row, col), g.rows, g.cols) ==>
      row * g.cols + col < |g.cells| && b == g.cells[row * g.cols + col]
    ensures !InBounds((row, col), g.rows, g.cols) ==> b == '.'
  {
    if 0 <= row < g.rows && 0 <= col < g.cols then
      IndexInRange(g.rows, g.cols, row, col);
      g.cells[row * g.cols + col]
    else '.'
  }

  /** Parsing a rectangular text and reading cell (r, c) gives character
      c of line r. */
  lemma FromBytesLines(lines: seq<seq<char>>, cols: nat)
    requires |lines| >= 1 && cols >= 1 && Text.Rectangular(lines, cols)
    ensures FromBytes(Text.Join(lines, '\n')) == Some(Grid(|lines|, cols, Text.Concat(lines)))
    ensures forall r, c :: 0 <= r < |lines| && 0 <= c < cols ==>
      GetCell(Grid(|lines|, cols, Text.Concat(lines)), r, c) == lines[r][c]
  {
    var text := Text.Join(lines, '\n');
    Text.FirstLineJoin(lines);
    Text.RemoveNewlinesJoin(lines);
    Text.ConcatLength(lines, cols);
    DivMulExact(|lines|, cols);
    forall r, c | 0 <= r < |lines| && 0 <= c < cols
      ensures GetCell(Grid(|lines|, cols, Text.Concat(lines)), r, c) == lines[r][c]
    {
      Text.ConcatIndex(lines, cols, r, c);
    }
  }

  // ----- part 1 -----

  /** The eight candidate directions of `part1`, in its order. */
  const Directions: seq<Pos> := [(0, 1), (0, -1), (1, 0), (-1, 0), (1, 1), (-1, -1), (1, -1), (-1, 1)]

  const Word: seq<char> := "XMAS"

  /** The four cells from `q` in direction `d` read X, M, A, S. */
  predicate Spells(g: Grid, q: Pos, d: Pos)
    requires Valid(g)
  {
    forall k :: 0 <= k < 4 ==> GetCell(g, q.0 + k * d.0, q.1 + k * d.1) == Word[k]
  }

  /** A match lies wholly inside the grid: the padding '.' spells nothing. */
  lemma SpellsInBounds(g: Grid, q: Pos, d: Pos, k: int)
    requires Valid(g) && Spells(g, q, d) && 0 <= k < 4
    ensures InBounds((q.0 + k * d.0, q.1 + k * d.1), g.rows, g.cols)
  {
    assert GetCell(g, q.0 + k * d.0, q.1 + k * d.1) == Word[k];
  }

  /** Reading a match backwards from its last cell gives SAMX. */
  lemma SpellsBackwards(g: Grid, q: Pos, d: Pos)
    requires Valid(g) && Spells(g, q, d)
    ensures forall k :: 0 <= k < 4 ==>
      GetCell(g, (q.0 + 3 * d.0) + k * -d.0, (q.1 + 3 * d.1) + k * -d.1) == "SAMX"[k]
  {
    forall k | 0 <= k < 4
      ensures GetCell(g, (q.0 + 3 * d.0) + k * -d.0, (q.1 + 3 * d.1) + k * -d.1) == "SAMX"[k]
    {
      assert (q.0 + 3 * d.0) + k * -d.0 == q.0 + (3 - k) * d.0;
      assert (q.1 + 3 * d.1) + k * -d.1 == q.1 + (3 - k) * d.1;
      assert GetCell(g, q.0 + (3 - k) * d.0, q.1 + (3 - k) * d.1) == Word[3 - k];
    }
  }

  /** The first `n` directions in which `q` starts a match. */
  function Matching(g: Grid, q: Pos, n: nat): set<nat>
    requires Valid(g) && n <= 8
  {
    set j | 0 <= j < n && Spells(g, q, Directions[j])
  }

  /** Every cell's matching directions, as the tags of that cell. */
  function MatchSets(g: Grid): Pos -> set<nat>
  {
    q => if Valid(g) then Matching(g, q, 8) else {}
  }

  /** The inner `for candidate in candidates` loop over the first `n`
      directions. */
  function MatchesFrom(g: Grid, q: Pos, n: nat): (m: nat)
    requires Valid(g) && n <= 8
    ensures m == |Matching(g, q, n)|
    ensures m <= n
  {
    if n == 0 then
      assert Matching(g, q, n) == {};
      0
    else
      MatchingStep(g, q, n);
      MatchesFrom(g, q, n - 1) + (if Spells(g, q, Directions[n - 1]) then 1 else 0)
  }

  lemma MatchingStep(g: Grid, q: Pos, n: nat)
    requires Valid(g) && 0 < n <= 8
    ensures |Matching(g, q, n)| == |Matching(g, q, n - 1)| + if Spells(g, q, Directions[n - 1]) then 1 else 0
  {
    var spells := Spells(g, q, Directions[n - 1]);
    var before := Matching(g, q, n - 1);
    assert Matching(g, q, n) == before + (if spells then {n - 1} else {});
    assert n - 1 !in before;
  }

  /** The nested loops of `part1`: the number of (cell, direction) pairs
      from which XMAS is spelled. */
  function CountXmas(g: Grid): (n: nat)
    requires Valid(g)
    ensures n == |Pairs(GridPositions(g.rows, g.cols), MatchSets(g))|
    ensures n <= 8 * (g.rows * g.cols)
  {
    var f := (q: Pos) => if 0 <= q.0 < g.rows && 0 <= q.1 < g.cols then MatchesFrom(g, q, 8) else 0;
    GridSumBound(g.rows, g.cols, f, 8);
    GridSumPairs(g.rows, g.cols, f, MatchSets(g));
    GridSum(g.rows, g.cols, f)
  }

  function Part1(input: seq<char>): (r: Option<nat>)
    ensures r.Some? <==> FromBytes(input).Some?
    ensures r.Some? ==> r.value == |Pairs(GridPositions(FromBytes(input).value.rows, FromBytes(input).value.cols), MatchSets(FromBytes(input).value))|
  {
    match FromBytes(input)
    case None => None
    case Some(g) => Some(CountXmas(g))
  }

  // ----- part 2 -----

  /** The corners of `q`: up-left, up-right, down-left, down-right. */
  function Corners(g: Grid, q: Pos): (cs: seq<char>)
    requires Valid(g)
    ensures |cs| == 4
  {
    [GetCell(g, q.0 - 1, q.1 - 1), GetCell(g, q.0 - 1, q.1 + 1),
     GetCell(g, q.0 + 1, q.1 - 1), GetCell(g, q.0 + 1, q.1 + 1)]
  }

  function Codes(cs: seq<char>): (r: seq<int>)
    ensures |r| == |cs| && forall i :: 0 <= i < |cs| ==> r[i] == cs[i] as int
  {
    seq(|cs|, i requires 0 <= i < |cs| => cs[i] as int)
  }

  const SortedMmss: seq<int> := ['M' as int, 'M' as int, 'S' as int, 'S' as int]

  /** The test of `part2`: an `A` whose opposite corners differ and whose
      corners, sorted, read M, M, S, S. */
  predicate IsCross(g: Grid, q: Pos)
    requires Valid(g)
  {
    var cs := Corners(g, q);
    GetCell(g, q.0, q.1) == 'A' && cs[0] != cs[3] && cs[1] != cs[2] && Sorting.Sort(Codes(cs)) == SortedMmss
  }

  /** One diagonal reads MAS in either direction. */
  predicate MasPair(a: char, b: char)
  {
    (a == 'M' && b == 'S') || (a == 'S' && b == 'M')
  }

  lemma SortedIsMmss(xs: seq<int>)
    ensures Sorting.Sort(xs) == SortedMmss <==> multiset(xs) == multiset(SortedMmss)
  {
    if multiset(xs) == multiset(SortedMmss) {
      MmssSorted();
      Sorting.SortedUnique(Sorting.Sort(xs), SortedMmss);
    }
  }

  lemma MmssSorted()
    ensures Sorting.Sorted(SortedMmss)
  {
  }

  /** The sorted-corners test is exactly "both diagonals spell MAS". */
  lemma IsCrossDiagonals(g: Grid, q: Pos)
    requires Valid(g)
    ensures IsCross(g, q) <==>
      GetCell(g, q.0, q.1) == 'A' && MasPair(Corners(g, q)[0], Corners(g, q)[3]) && MasPair(Corners(g, q)[1], Corners(g, q)[2])
  {
    var cs := Corners(g, q);
    CornerTest(cs[0], cs[1], cs[2], cs[3]);
    assert cs == [cs[0], cs[1], cs[2], cs[3]];
  }

  lemma CornerTest(a: char, b: char, c: char, d: char)
    ensures (a != d && b != c && Sorting.Sort(Codes([a, b, c, d])) == SortedMmss) <==> MasPair(a, d) && MasPair(b, c)
  {
    if MasPair(a, d) && MasPair(b, c) {
      CornerTestIf(a, b, c, d);
    }
    if a != d && b != c && Sorting.Sort(Codes([a, b, c, d])) == SortedMmss {
      CornerTestOnlyIf(a, b, c, d);
    }
  }

  lemma CornerTestIf(a: char, b: char, c: char, d: char)
    requires MasPair(a, d) && MasPair(b, c)
    ensures Sorting.Sort(Codes([a, b, c, d])) == SortedMmss
  {
    var xs := Codes([a, b, c, d]);
    assert xs == [a as int, b as int, c as int, d as int];
    SortedIsMmss(xs);
    CrossCodes(a, b, c, d);
  }

  lemma CornerTestOnlyIf(a: char, b: char, c: char, d: char)
    requires a != d && b != c && Sorting.Sort(Codes([a, b, c, d])) == SortedMmss
    ensures MasPair(a, d) && MasPair(b, c)
  {
    var xs := Codes([a, b, c, d]);
    MmssLetters(xs);
    PairsOfLetters(a, b, c, d, xs);
  }

  /** Four letters whose codes are each an M or an S, opposite corners
      differing, form two M-S pairs. */
  lemma PairsOfLetters(a: char, b: char, c: char, d: char, xs: seq<int>)
    requires a != d && b != c && xs == Codes([a, b, c, d])
    requires forall i :: 0 <= i < |xs| ==> xs[i] == 'M' as int || xs[i] == 'S' as int
    ensures MasPair(a, d) && MasPair(b, c)
  {
    assert xs[0] == a as int && xs[3] == d as int;
    assert xs[1] == b as int && xs[2] == c as int;
  }

  /** Codes that sort to M, M, S, S are each an M or an S. */
  lemma MmssLetters(xs: seq<int>)
    requires Sorting.Sort(xs) == SortedMmss
    ensures forall i :: 0 <= i < |xs| ==> xs[i] == 'M' as int || xs[i] == 'S' as int
  {
    SortedIsMmss(xs);
    CodesAreMs(xs);
  }

  lemma CrossCodes(a: char, b: char, c: char, d: char)
    requires MasPair(a, d) && MasPair(b, c)
    ensures multiset([a as int, b as int, c as int, d as int]) == multiset(SortedMmss)
  {
    PairedCodes(a as int, b as int, c as int, d as int, 'M' as int, 'S' as int);
  }

  /** Two pairs, each of one `m` and one `s`, hold two of each. */
  lemma PairedCodes(w: int, x: int, y: int, z: int, m: int, s: int)
    requires (w == m && z == s) || (w == s && z == m)
    requires (x == m && y == s) || (x == s && y == m)
    ensures multiset([w, x, y, z]) == multiset([m, m, s, s])
  {
    forall v
      ensures multiset([w, x, y, z])[v] == multiset([m, m, s, s])[v]
    {
      if v == m {
      } else if v == s {
      } else {
      }
    }
  }

  lemma CodesAreMs(xs: seq<int>)
    requires multiset(xs) == multiset(SortedMmss)
    ensures forall i :: 0 <= i < |xs| ==> xs[i] == 'M' as int || xs[i] == 'S' as int
  {
    forall i | 0 <= i < |xs| ensures xs[i] == 'M' as int || xs[i] == 'S' as int {
      assert xs[i] in multiset(xs);
      assert xs[i] in SortedMmss;
    }
  }

  /** The cells of the grid at the centre of an X-MAS. */
  function Crosses(g: Grid): set<Pos>
    requires Valid(g)
  {
    Where(GridPositions(g.rows, g.cols), q => IsCross(g, q))
  }

  /** Number of X-MAS centres, counted cell by cell. */
  function CountCrosses(g: Grid): (n: nat)
    requires Valid(g)
    ensures n == |Crosses(g)|
  {
    var p := (q: Pos) => IsCross(g, q);
    GridCountCard(g.rows, g.cols, p);
    GridCount(g.rows, g.cols, p)
  }

  function Part2(input: seq<char>): (r: Option<nat>)
    ensures r.Some? <==> FromBytes(input).Some?
    ensures r.Some? ==> r.value == |Crosses(FromBytes(input).value)|
    ensures r.Some? ==> r.value <= FromBytes(input).value.rows * FromBytes(input).value.cols
  {
    match FromBytes(input)
    case None => None
    case Some(g) =>
      var n := CountCrosses(g);
      InBoundsSetCard(Crosses(g), g.rows, g.cols);
      Some(n)
  }
}
