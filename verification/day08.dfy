/** Day 8: antennas of the same frequency create antinodes. In part 1 an
    antinode is the mirror image of one antenna in another; in part 2 it
    is any grid cell on the ray from one antenna away from the other, the
    antenna itself included. */
module Day08 {
  import opened Common
  import Text

  /** Bytes '0'..'9', 'A'..'Z' and 'a'..'z' are antennas. */
  predicate IsAntenna(c: char)
  {
    '0' <= c <= '9' || 'A' <= c <= 'Z' || 'a' <= c <= 'z'
  }

  /** The text's byte at `p`, if the line is long enough. */
  predicate At(lines: seq<seq<char>>, p: Pos, f: char)
  {
    0 <= p.0 < |lines| && 0 <= p.1 < |lines[p.0]| && lines[p.0][p.1] == f
  }

  /** Two distinct antennas of the same frequency. */
  predicate Pair(lines: seq<seq<char>>, a: Pos, b: Pos)
  {
    a != b && 0 <= a.0 < |lines| && 0 <= a.1 < |lines[a.0]| && IsAntenna(lines[a.0][a.1]) &&
    At(lines, b, lines[a.0][a.1])
  }

  /** The mirror image of `b` in `a`: (2 a - b). */
  function Reflect(a: Pos, b: Pos): Pos
  {
    (a.0 + a.0 - b.0, a.1 + a.1 - b.1)
  }

  /** The cell k steps from `a` in steps of `d`. */
  function Along(a: Pos, d: Pos, k: nat): Pos
  {
    (a.0 + k * d.0, a.1 + k * d.1)
  }

  function Diff(a: Pos, b: Pos): Pos
  {
    (a.0 - b.0, a.1 - b.1)
  }

  // ----- the grid -----

  /** The antennas of frequency `f` in lines `r..`, row by row, the order
      in which the source pushes them. */
  function PositionsFrom(lines: seq<seq<char>>, f: char, r: nat): (ps: seq<Pos>)
    requires r <= |lines|
    ensures forall p :: p in ps <==> r <= p.0 && At(lines, p, f)
    ensures forall x :: 0 <= x < |ps| ==> r <= ps[x].0
    ensures forall x, y :: 0 <= x < y < |ps| ==> ps[x] != ps[y]
    decreases |lines| - r
  {
    if r == |lines| then []
    else RowPositions(lines[r], f, r, 0) + PositionsFrom(lines, f, r + 1)
  }

  /** The antennas of frequency `f` in line `r` from column `c` on. */
  function RowPositions(line: seq<char>, f: char, r: int, c: nat): (ps: seq<Pos>)
    requires c <= |line|
    ensures forall p :: p in ps <==> p.0 == r && c <= p.1 < |line| && line[p.1] == f
    ensures forall x :: 0 <= x < |ps| ==> ps[x].0 == r && c <= ps[x].1
    ensures forall x, y :: 0 <= x < y < |ps| ==> ps[x].1 < ps[y].1
    decreases |line| - c
  {
    if c == |line| then []
    else if line[c] == f then [(r, c)] + RowPositions(line, f, r, c + 1)
    else RowPositions(line, f, r, c + 1)
  }

  /** The antenna bytes in increasing byte order, the order of the
      source's 256 position lists. */
  const Frequencies: seq<char> := Run('0', 10) + Run('A', 26) + Run('a', 26)

  /** The `n` bytes from `lo` on. */
  function Run(lo: char, n: nat): (r: seq<char>)
    requires lo as int + n <= 256
    ensures |r| == n
    ensures forall i :: 0 <= i < n ==> r[i] as int == lo as int + i
  {
    if n == 0 then [] else Run(lo, n - 1) + [(lo as int + n - 1) as char]
  }

  lemma RunMembers(lo: char, n: nat)
    requires lo as int + n <= 256
    ensures forall c :: c in Run(lo, n) <==> lo <= c && (c as int) < lo as int + n
  {
    var r := Run(lo, n);
    forall c | lo <= c && (c as int) < lo as int + n ensures c in r {
      assert r[c as int - lo as int] == c;
    }
  }

  lemma FrequenciesAreAntennas()
    ensures forall c :: IsAntenna(c) <==> c in Frequencies
  {
    RunMembers('0', 10);
    RunMembers('A', 26);
    RunMembers('a', 26);
    assert forall c :: c in Frequencies <==> c in Run('0', 10) || c in Run('A', 26) || c in Run('a', 26);
  }

  // ----- what one pair of antennas contributes -----

  /** Part 1 mirrors the antennas; part 2 draws the lines through them. */
  datatype Rule = Mirror | Line

  /** Steps left before a walk in direction `d` leaves the grid. */
  function Room(p: Pos, d: Pos, rows: int, cols: int): int
  {
    if d.0 > 0 then rows - p.0
    else if d.0 < 0 then p.0 + 1
    else if d.1 > 0 then cols - p.1
    else p.1 + 1
  }

  /** The `while` loop of `part2`: every cell from `p` on in steps of `d`
      while inside the grid. It ends because distinct antennas give a
      non-zero step. */
  function Ray(p: Pos, d: Pos, rows: int, cols: int): set<Pos>
    requires d != (0, 0)
    decreases if InBounds(p, rows, cols) then Room(p, d, rows, cols) else 0
  {
    if !InBounds(p, rows, cols) then {}
    else {p} + Ray((p.0 + d.0, p.1 + d.1), d, rows, cols)
  }

  /** What the ordered pair (a, b) adds: the mirror image of `b` in `a`,
      or the ray from `a` away from `b`, as far as inside the grid. */
  function Contribution(rule: Rule, a: Pos, b: Pos, rows: int, cols: int): set<Pos>
    requires a != b
  {
    match rule
    case Mirror => if InBounds(Reflect(a, b), rows, cols) then {Reflect(a, b)} else {}
    case Line => Ray(a, Diff(a, b), rows, cols)
  }

  /** Inside a grid, the cells between two cells of a line are inside too. */
  lemma StepInside(p: Pos, d: Pos, k: nat, rows: int, cols: int)
    requires k >= 1 && InBounds(p, rows, cols) && InBounds(Along(p, d, k), rows, cols)
    ensures InBounds((p.0 + d.0, p.1 + d.1), rows, cols)
  {
    Between(p.0, d.0, k);
    Between(p.1, d.1, k);
  }

  lemma Between(x: int, d: int, k: nat)
    requires k >= 1
    ensures (x <= x + d <= x + k * d) || (x + k * d <= x + d <= x)
  {
    if d >= 0 {
      assert k * d >= d by {
        assert (k - 1) * d >= 0;
      }
    } else {
      assert k * d <= d by {
        assert (k - 1) * (-d) >= 0;
      }
    }
  }

  /** The ray holds exactly the grid cells `p + k d`, k >= 0, when `p` is
      inside: once the walk leaves the grid it cannot come back. */
  lemma RayIsLine(p: Pos, d: Pos, rows: int, cols: int)
    requires d != (0, 0)
    ensures forall q :: q in Ray(p, d, rows, cols) <==>
      (InBounds(p, rows, cols) && InBounds(q, rows, cols) && exists k: nat :: q == Along(p, d, k))
  {
    forall q | q in Ray(p, d, rows, cols)
      ensures InBounds(p, rows, cols) && InBounds(q, rows, cols) && exists k: nat :: q == Along(p, d, k)
    {
      RaySound(p, d, rows, cols, q);
    }
    forall q, k: nat | InBounds(p, rows, cols) && InBounds(q, rows, cols) && q == Along(p, d, k)
      ensures q in Ray(p, d, rows, cols)
    {
      RayComplete(p, d, rows, cols, k);
    }
  }

  /** Every cell of the ray is a grid cell `p + k d`. */
  lemma {:induction false} RaySound(p: Pos, d: Pos, rows: int, cols: int, q: Pos)
    requires d != (0, 0) && q in Ray(p, d, rows, cols)
    ensures InBounds(p, rows, cols) && InBounds(q, rows, cols) && exists k: nat :: q == Along(p, d, k)
    decreases if InBounds(p, rows, cols) then Room(p, d, rows, cols) else 0
  {
    if q == p {
      assert q == Along(p, d, 0);
    } else {
      var p' := (p.0 + d.0, p.1 + d.1);
      RaySound(p', d, rows, cols, q);
      var k: nat :| q == Along(p', d, k);
      AlongStep(p, d, k);
    }
  }

  /** Every grid cell `p + k d` is on the ray from a grid cell `p`. */
  lemma {:induction false} RayComplete(p: Pos, d: Pos, rows: int, cols: int, k: nat)
    requires d != (0, 0) && InBounds(p, rows, cols) && InBounds(Along(p, d, k), rows, cols)
    ensures Along(p, d, k) in Ray(p, d, rows, cols)
    decreases k
  {
    if k == 0 {
      assert Along(p, d, 0) == p;
    } else {
      var p' := (p.0 + d.0, p.1 + d.1);
      StepInside(p, d, k, rows, cols);
      AlongStep(p, d, k - 1);
      RayComplete(p', d, rows, cols, k - 1);
    }
  }

  lemma AlongStep(p: Pos, d: Pos, k: nat)
    ensures Along((p.0 + d.0, p.1 + d.1), d, k) == Along(p, d, k + 1)
  {
    assert (k + 1) * d.0 == k * d.0 + d.0;
    assert (k + 1) * d.1 == k * d.1 + d.1;
  }

  // ----- the loops over pairs and frequencies -----

  predicate Distinct(ps: seq<Pos>)
  {
    forall x, y :: 0 <= x < y < |ps| ==> ps[x] != ps[y]
  }

  /** `for j in i + 1..len`, from `j` on: both orders of each pair. */
  function LoopJ(rule: Rule, ps: seq<Pos>, i: nat, j: nat, rows: int, cols: int): set<Pos>
    requires i < j <= |ps| && Distinct(ps)
    decreases |ps| - j
  {
    if j == |ps| then {}
    else
      Contribution(rule, ps[i], ps[j], rows, cols) + Contribution(rule, ps[j], ps[i], rows, cols) +
      LoopJ(rule, ps, i, j + 1, rows, cols)
  }

  /** `for i in 0..len`, from `i` on. */
  function LoopI(rule: Rule, ps: seq<Pos>, i: nat, rows: int, cols: int): set<Pos>
    requires i <= |ps| && Distinct(ps)
    decreases |ps| - i
  {
    if i == |ps| then {} else LoopJ(rule, ps, i, i + 1, rows, cols) + LoopI(rule, ps, i + 1, rows, cols)
  }

  /** The outer loop over the position lists of the frequencies `fs`. */
  function Collect(rule: Rule, lines: seq<seq<char>>, fs: seq<char>, rows: int, cols: int): set<Pos>
  {
    if |fs| == 0 then {}
    else Collect(rule, lines, fs[..|fs| - 1], rows, cols) + LoopI(rule, PositionsFrom(lines, fs[|fs| - 1], 0), 0, rows, cols)
  }

  lemma {:induction false} LoopJMembers(rule: Rule, ps: seq<Pos>, i: nat, j: nat, rows: int, cols: int)
    requires i < j <= |ps| && Distinct(ps)
    ensures forall q :: q in LoopJ(rule, ps, i, j, rows, cols) <==>
      exists y :: j <= y < |ps| &&
        (q in Contribution(rule, ps[i], ps[y], rows, cols) || q in Contribution(rule, ps[y], ps[i], rows, cols))
    decreases |ps| - j
  {
    if j < |ps| {
      LoopJMembers(rule, ps, i, j + 1, rows, cols);
    }
  }

  /** `q` comes from the ordered pair of entries `x` and `y` of `ps`. */
  predicate PairAt(rule: Rule, ps: seq<Pos>, x: int, y: int, q: Pos, rows: int, cols: int)
  {
    0 <= x < |ps| && 0 <= y < |ps| && x != y && ps[x] != ps[y] && q in Contribution(rule, ps[x], ps[y], rows, cols)
  }

  /** `q` comes from an ordered pair of distinct entries at index `i` or later. */
  ghost predicate FromPairs(rule: Rule, ps: seq<Pos>, i: nat, q: Pos, rows: int, cols: int)
  {
    exists x, y :: i <= x && i <= y && PairAt(rule, ps, x, y, q, rows, cols)
  }

  /** The `i < j` loops, which take each pair both ways round, visit every
      ordered pair of distinct entries from index `i` on. */
  lemma {:induction false} LoopIMembers(rule: Rule, ps: seq<Pos>, i: nat, rows: int, cols: int)
    requires i <= |ps| && Distinct(ps)
    ensures forall q :: q in LoopI(rule, ps, i, rows, cols) <==> FromPairs(rule, ps, i, q, rows, cols)
    decreases |ps| - i
  {
    if i < |ps| {
      LoopIMembers(rule, ps, i + 1, rows, cols);
      LoopJMembers(rule, ps, i, i + 1, rows, cols);
      forall q | q in LoopJ(rule, ps, i, i + 1, rows, cols)
        ensures FromPairs(rule, ps, i, q, rows, cols)
      {
        var y :| i + 1 <= y < |ps| &&
          (q in Contribution(rule, ps[i], ps[y], rows, cols) || q in Contribution(rule, ps[y], ps[i], rows, cols));
        if q in Contribution(rule, ps[i], ps[y], rows, cols) {
          assert i != y;
          assert FromPairs(rule, ps, i, q, rows, cols) by { assert PairAt(rule, ps, i, y, q, rows, cols); }
        } else {
          assert y != i;
          assert FromPairs(rule, ps, i, q, rows, cols) by { assert PairAt(rule, ps, y, i, q, rows, cols); }
        }
      }
      forall q | FromPairs(rule, ps, i, q, rows, cols) ensures q in LoopI(rule, ps, i, rows, cols) {
        var x, y :| i <= x < |ps| && i <= y < |ps| && PairAt(rule, ps, x, y, q, rows, cols);
        if x == i || y == i {
          assert q in LoopJ(rule, ps, i, i + 1, rows, cols);
        } else {
          assert q in LoopI(rule, ps, i + 1, rows, cols);
        }
      }
    }
  }

  /** The position list of one antenna frequency pairs up exactly the
      antennas of that frequency. */
  lemma FrequencyMembers(rule: Rule, lines: seq<seq<char>>, f: char, rows: int, cols: int)
    requires IsAntenna(f)
    ensures forall q :: q in LoopI(rule, PositionsFrom(lines, f, 0), 0, rows, cols) <==>
      exists a, b :: Pair(lines, a, b) && lines[a.0][a.1] == f && q in Contribution(rule, a, b, rows, cols)
  {
    var ps := PositionsFrom(lines, f, 0);
    LoopIMembers(rule, ps, 0, rows, cols);
    forall q | q in LoopI(rule, ps, 0, rows, cols)
      ensures exists a, b :: Pair(lines, a, b) && lines[a.0][a.1] == f && q in Contribution(rule, a, b, rows, cols)
    {
      var x, y :| 0 <= x && 0 <= y && PairAt(rule, ps, x, y, q, rows, cols);
      assert ps[x] in ps && ps[y] in ps;
      assert Pair(lines, ps[x], ps[y]);
    }
    forall q, a, b | Pair(lines, a, b) && lines[a.0][a.1] == f && q in Contribution(rule, a, b, rows, cols)
      ensures q in LoopI(rule, ps, 0, rows, cols)
    {
      assert a in ps && b in ps;
      var x :| 0 <= x < |ps| && ps[x] == a;
      var y :| 0 <= y < |ps| && ps[y] == b;
      assert PairAt(rule, ps, x, y, q, rows, cols);
    }
  }

  /** The frequency loop collects the contributions of exactly the pairs
      of antennas whose frequency it visits. */
  lemma {:induction false} CollectMembers(rule: Rule, lines: seq<seq<char>>, fs: seq<char>, rows: int, cols: int)
    requires forall k :: 0 <= k < |fs| ==> IsAntenna(fs[k])
    ensures forall q :: q in Collect(rule, lines, fs, rows, cols) <==>
      exists a, b :: Pair(lines, a, b) && lines[a.0][a.1] in fs && q in Contribution(rule, a, b, rows, cols)
    decreases |fs|
  {
    if |fs| > 0 {
      var init, f := fs[..|fs| - 1], fs[|fs| - 1];
      CollectMembers(rule, lines, init, rows, cols);
      FrequencyMembers(rule, lines, f, rows, cols);
      assert fs == init + [f];
      forall q, a, b | Pair(lines, a, b) && lines[a.0][a.1] in fs && q in Contribution(rule, a, b, rows, cols)
        ensures q in Collect(rule, lines, fs, rows, cols)
      {
        if lines[a.0][a.1] in init {
          assert q in Collect(rule, lines, init, rows, cols);
        } else {
          assert lines[a.0][a.1] == f;
        }
      }
    }
  }

  /** `q` is contributed by some pair of same-frequency antennas. */
  ghost predicate FromAntennas(rule: Rule, lines: seq<seq<char>>, q: Pos, rows: int, cols: int)
  {
    exists a, b :: Pair(lines, a, b) && q in Contribution(rule, a, b, rows, cols)
  }

  /** Looping over every antenna byte collects the contributions of every
      pair of antennas. */
  lemma CollectAll(rule: Rule, lines: seq<seq<char>>, rows: int, cols: int)
    ensures forall q :: q in Collect(rule, lines, Frequencies, rows, cols) <==> FromAntennas(rule, lines, q, rows, cols)
  {
    FrequenciesAreAntennas();
    CollectMembers(rule, lines, Frequencies, rows, cols);
    forall q | FromAntennas(rule, lines, q, rows, cols) ensures q in Collect(rule, lines, Frequencies, rows, cols) {
      var a, b :| Pair(lines, a, b) && q in Contribution(rule, a, b, rows, cols);
      assert lines[a.0][a.1] in Frequencies;
    }
  }

  /** Every cell collected lies inside the grid. */
  lemma CollectInBounds(rule: Rule, lines: seq<seq<char>>, rows: nat, cols: nat)
    ensures forall q :: q in Collect(rule, lines, Frequencies, rows, cols) ==> InBounds(q, rows, cols)
  {
    CollectAll(rule, lines, rows, cols);
    forall q | q in Collect(rule, lines, Frequencies, rows, cols) ensures InBounds(q, rows, cols) {
      var a, b :| Pair(lines, a, b) && q in Contribution(rule, a, b, rows, cols);
      if rule == Line {
        RayIsLine(a, Diff(a, b), rows, cols);
      }
    }
  }

  // ----- the two answers -----

  /** Grid cells that mirror one antenna in another of its frequency. */
  ghost function MirrorNodes(lines: seq<seq<char>>, rows: nat, cols: nat): set<Pos>
  {
    set q | q in GridPositions(rows, cols) && exists a, b :: Pair(lines, a, b) && q == Reflect(a, b)
  }

  /** Grid cells on a ray that starts at an antenna inside the grid and
      leads away from another antenna of its frequency. */
  ghost function LineNodes(lines: seq<seq<char>>, rows: nat, cols: nat): set<Pos>
  {
    set q | q in GridPositions(rows, cols) &&
      exists a, b, k: nat :: Pair(lines, a, b) && InBounds(a, rows, cols) && q == Along(a, Diff(a, b), k)
  }

  lemma MirrorCollect(lines: seq<seq<char>>, rows: nat, cols: nat)
    ensures Collect(Mirror, lines, Frequencies, rows, cols) == MirrorNodes(lines, rows, cols)
  {
    CollectAll(Mirror, lines, rows, cols);
    MirrorNodesFromAntennas(lines, rows, cols);
  }

  lemma MirrorNodesFromAntennas(lines: seq<seq<char>>, rows: nat, cols: nat)
    ensures forall q :: q in MirrorNodes(lines, rows, cols) <==> FromAntennas(Mirror, lines, q, rows, cols)
  {
    forall q | FromAntennas(Mirror, lines, q, rows, cols) ensures q in MirrorNodes(lines, rows, cols) {
      var a, b :| Pair(lines, a, b) && q in Contribution(Mirror, a, b, rows, cols);
    }
    forall q | q in MirrorNodes(lines, rows, cols) ensures FromAntennas(Mirror, lines, q, rows, cols) {
      var a, b :| Pair(lines, a, b) && q == Reflect(a, b);
      assert q in Contribution(Mirror, a, b, rows, cols);
    }
  }

  lemma LineCollect(lines: seq<seq<char>>, rows: nat, cols: nat)
    ensures Collect(Line, lines, Frequencies, rows, cols) == LineNodes(lines, rows, cols)
  {
    CollectAll(Line, lines, rows, cols);
    LineNodesFromAntennas(lines, rows, cols);
  }

  lemma LineNodesFromAntennas(lines: seq<seq<char>>, rows: nat, cols: nat)
    ensures forall q :: q in LineNodes(lines, rows, cols) <==> FromAntennas(Line, lines, q, rows, cols)
  {
    forall q | FromAntennas(Line, lines, q, rows, cols) ensures q in LineNodes(lines, rows, cols) {
      var a, b :| Pair(lines, a, b) && q in Contribution(Line, a, b, rows, cols);
      RayIsLine(a, Diff(a, b), rows, cols);
    }
    forall q | q in LineNodes(lines, rows, cols) ensures FromAntennas(Line, lines, q, rows, cols) {
      var a, b, k: nat :| Pair(lines, a, b) && InBounds(a, rows, cols) && q == Along(a, Diff(a, b), k);
      RayIsLine(a, Diff(a, b), rows, cols);
      assert q in Contribution(Line, a, b, rows, cols);
    }
  }

  /** The collected cells are the antinodes, and there are no more of
      them than grid cells. */
  lemma Counted(rule: Rule, lines: seq<seq<char>>, rows: nat, cols: nat)
    ensures rule == Mirror ==> Collect(rule, lines, Frequencies, rows, cols) == MirrorNodes(lines, rows, cols)
    ensures rule == Line ==> Collect(rule, lines, Frequencies, rows, cols) == LineNodes(lines, rows, cols)
    ensures |Collect(rule, lines, Frequencies, rows, cols)| <= rows * cols
  {
    if rule == Mirror {
      MirrorCollect(lines, rows, cols);
    } else {
      LineCollect(lines, rows, cols);
    }
    CollectInBounds(rule, lines, rows, cols);
    InBoundsSetCard(Collect(rule, lines, Frequencies, rows, cols), rows, cols);
  }

  /** Rows are the text's lines, columns the length of its first line. */
  function Shape(input: seq<char>): (nat, nat)
  {
    (|Text.Lines(input)|, |Text.FirstLine(input)|)
  }

  /** `part1`: the number of grid cells that mirror one antenna in another
      of the same frequency. */
  function Part1(input: seq<char>): (n: nat)
    ensures n == |MirrorNodes(Text.Lines(input), Shape(input).0, Shape(input).1)|
    ensures n <= Shape(input).0 * Shape(input).1
  {
    Counted(Mirror, Text.Lines(input), Shape(input).0, Shape(input).1);
    |Collect(Mirror, Text.Lines(input), Frequencies, Shape(input).0, Shape(input).1)|
  }

  /** `part2`: the number of grid cells on the rays through antennas. */
  function Part2(input: seq<char>): (n: nat)
    ensures n == |LineNodes(Text.Lines(input), Shape(input).0, Shape(input).1)|
    ensures n <= Shape(input).0 * Shape(input).1
  {
    Counted(Line, Text.Lines(input), Shape(input).0, Shape(input).1);
    |Collect(Line, Text.Lines(input), Frequencies, Shape(input).0, Shape(input).1)|
  }

  /** No line is longer than the first, so every antenna is inside the grid. */
  predicate WithinWidth(input: seq<char>)
  {
    forall r :: 0 <= r < |Text.Lines(input)| ==> |Text.Lines(input)[r]| <= Shape(input).1
  }

  /** A mirror image lies one step along the ray, so every `part1`
      antinode is a `part2` one, when the antennas are inside the grid. */
  lemma MirrorsOnLines(input: seq<char>)
    requires WithinWidth(input)
    ensures MirrorNodes(Text.Lines(input), Shape(input).0, Shape(input).1) <=
            LineNodes(Text.Lines(input), Shape(input).0, Shape(input).1)
    ensures Part1(input) <= Part2(input)
  {
    var lines := Text.Lines(input);
    var rows := Shape(input).0;
    var cols := Shape(input).1;
    forall q | q in MirrorNodes(lines, rows, cols) ensures q in LineNodes(lines, rows, cols) {
      var a, b :| Pair(lines, a, b) && q == Reflect(a, b);
      assert InBounds(a, rows, cols);
      assert q == Along(a, Diff(a, b), 1);
    }
    SubsetCard(MirrorNodes(lines, rows, cols), LineNodes(lines, rows, cols));
  }

  /** Every antenna inside the grid that shares its frequency with another
      is itself a `part2` antinode (the ray's first cell). */
  lemma AntennasAreLineNodes(input: seq<char>, a: Pos, b: Pos)
    requires Pair(Text.Lines(input), a, b) && InBounds(a, Shape(input).0, Shape(input).1)
    ensures a in LineNodes(Text.Lines(input), Shape(input).0, Shape(input).1)
  {
    assert a == Along(a, Diff(a, b), 0);
  }
}
