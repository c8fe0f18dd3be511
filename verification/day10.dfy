/** Day 10: a topographic map of single-digit heights. A trail climbs by
    exactly one per orthogonal step from a 0 to a 9. Part 1 scores each
    trailhead by the 9-cells it reaches, part 2 rates it by its distinct
    trails, rebuilt backwards from predecessor lists. */
module Day10 {
  import opened Common
  import Text
  import Sorting

  /** An unsigned byte. */
  type U8 = x: int | 0 <= x < 256

  /** Heights in row-major order. */
  datatype Grid = Grid(rows: nat, cols: nat, cells: seq<U8>)

  type Coords = (nat, nat)

  /** The cells fill the rectangle exactly. */
  predicate Valid(g: Grid)
  {
    g.cols > 0 && |g.cells| == g.rows * g.cols
  }

  /** A byte the `u8` subtraction `b - b'0'` accepts. */
  predicate Subtractable(c: char)
  {
    '0' <= c && c as int < 256
  }

  /** Each byte minus '0'; `None` where the subtraction would panic. */
  function Heights(cs: seq<char>): (r: Option<seq<U8>>)
    ensures r.Some? <==> forall i :: 0 <= i < |cs| ==> Subtractable(cs[i])
    ensures r.Some? ==> |r.value| == |cs|
    ensures r.Some? ==> forall i :: 0 <= i < |cs| ==> r.value[i] == cs[i] as int - '0' as int
  {
    if |cs| == 0 then Some([])
    else if !Subtractable(cs[0]) then None
    else
      match Heights(cs[1..])
      case None => None
      case Some(rest) => Some([cs[0] as int - '0' as int] + rest)
  }

  /** `Grid::from_bytes`: the width is the first line's length. `None`
      when the division by a zero width or a byte subtraction panics,
      and for a last row shorter than the first, which the model does
      not cover. */
  function FromBytes(bytes: seq<char>): (r: Option<Grid>)
    ensures r.Some? ==> Valid(r.value) && r.value.cols == |Text.FirstLine(bytes)|
    ensures r.Some? ==> Heights(Text.RemoveNewlines(bytes)) == Some(r.value.cells)
  {
    var cols := |Text.FirstLine(bytes)|;
    match Heights(Text.RemoveNewlines(bytes))
    case None => None
    case Some(cells) =>
      if cols == 0 || |cells| % cols != 0 then None
      else
        DivExact(|cells|, cols);
        Some(Grid(|cells| / cols, cols, cells))
  }

  lemma DivExact(a: nat, b: nat)
    requires b > 0 && a % b == 0
    ensures (a / b) * b == a
  {
  }

  // ----- coordinates -----

  predicate InGrid(g: Grid, p: Coords)
  {
    p.0 < g.rows && p.1 < g.cols
  }

  function ToCoords(g: Grid, i: nat): Coords
    requires g.cols > 0
  {
    (i / g.cols, i % g.cols)
  }

  /** `row * cols`, written as a repeated sum so that unfolding an index stays linear. */
  function RowStart(cols: nat, row: nat): (r: nat)
    ensures row > 0 ==> r >= cols
    decreases row
  {
    if row == 0 then 0 else RowStart(cols, row - 1) + cols
  }

  lemma {:induction false} RowStartProduct(cols: nat, row: nat)
    ensures RowStart(cols, row) == row * cols
    decreases row
  {
    if row > 0 {
      RowStartProduct(cols, row - 1);
    }
  }

  function ToIndex(g: Grid, p: Coords): nat
  {
    RowStart(g.cols, p.0) + p.1
  }

  /** `to_coords` undoes `to_index` on any column inside the grid. */
  lemma CoordsOfIndex(g: Grid, p: Coords)
    requires g.cols > 0 && p.1 < g.cols
    ensures ToCoords(g, ToIndex(g, p)) == p
  {
    var i := ToIndex(g, p);
    RowStartProduct(g.cols, p.0);
    var q, m := i / g.cols, i % g.cols;
    assert q * g.cols + m == p.0 * g.cols + p.1;
    assert (q - p.0) * g.cols == p.1 - m;
    if q > p.0 {
      MulAtLeast(q - p.0, g.cols);
    } else if q < p.0 {
      MulAtLeast(p.0 - q, g.cols);
    }
  }

  /** `to_index` undoes `to_coords`. */
  lemma IndexOfCoords(g: Grid, i: nat)
    requires g.cols > 0
    ensures ToIndex(g, ToCoords(g, i)) == i && ToCoords(g, i).1 < g.cols
  {
    RowStartProduct(g.cols, i / g.cols);
  }

  /** The cells of the grid are the indices below `rows * cols`. */
  lemma IndexInGrid(g: Grid, p: Coords)
    requires InGrid(g, p)
    ensures ToIndex(g, p) < g.rows * g.cols
  {
    RowStartProduct(g.cols, p.0);
    MulAtLeast(g.rows - p.0, g.cols);
    assert (g.rows - p.0) * g.cols == g.rows * g.cols - p.0 * g.cols;
  }

  lemma CoordsInGrid(g: Grid, i: nat)
    requires g.cols > 0 && i < g.rows * g.cols
    ensures InGrid(g, ToCoords(g, i))
  {
    var q := i / g.cols;
    assert q * g.cols <= i;
    if q >= g.rows {
      assert (q - g.rows) * g.cols >= 0;
    }
  }

  function Height(g: Grid, p: Coords): U8
    requires Valid(g) && InGrid(g, p)
  {
    IndexInGrid(g, p);
    g.cells[ToIndex(g, p)]
  }

  predicate Final(g: Grid, p: Coords)
    requires Valid(g) && InGrid(g, p)
  {
    Height(g, p) == 9
  }

  /** One orthogonal step apart. */
  predicate Adjacent(p: Coords, n: Coords)
  {
    (n.0 + 1 == p.0 && n.1 == p.1) || (n.0 == p.0 && n.1 + 1 == p.1) ||
    (n.0 == p.0 + 1 && n.1 == p.1) || (n.0 == p.0 && n.1 == p.1 + 1)
  }

  /** The neighbour of `p` in direction `d` (0 up, 1 left, 2 down, 3 right),
      when it lies inside the grid. */
  function Neighbour(g: Grid, p: Coords, d: nat): (r: Option<Coords>)
    ensures InGrid(g, p) && r.Some? ==> InGrid(g, r.value) && Adjacent(p, r.value)
  {
    if d == 0 then (if p.0 > 0 then Some((p.0 - 1, p.1)) else None)
    else if d == 1 then (if p.1 > 0 then Some((p.0, p.1 - 1)) else None)
    else if d == 2 then (if p.0 + 1 < g.rows then Some((p.0 + 1, p.1)) else None)
    else if p.1 + 1 < g.cols then Some((p.0, p.1 + 1)) else None
  }

  /** Every in-grid orthogonal neighbour lies in one of the four directions. */
  lemma NeighbourComplete(g: Grid, p: Coords, n: Coords)
    requires InGrid(g, n) && Adjacent(p, n)
    ensures exists d :: 0 <= d < 4 && Neighbour(g, p, d) == Some(n)
  {
    if n.0 + 1 == p.0 && n.1 == p.1 {
      assert Neighbour(g, p, 0) == Some(n);
    } else if n.0 == p.0 && n.1 + 1 == p.1 {
      assert Neighbour(g, p, 1) == Some(n);
    } else if n.0 == p.0 + 1 && n.1 == p.1 {
      assert Neighbour(g, p, 2) == Some(n);
    } else {
      assert Neighbour(g, p, 3) == Some(n);
    }
  }

  /** A step from `p` to `n` climbs by exactly one. */
  predicate Rises(g: Grid, p: Coords, n: Coords)
    requires Valid(g) && InGrid(g, p)
  {
    InGrid(g, n) && Height(g, n) == Height(g, p) + 1
  }

  /** The climbing neighbours of `p` in directions `d` to 3, in that order. */
  function NextFrom(g: Grid, p: Coords, d: nat): seq<Coords>
    requires Valid(g) && InGrid(g, p)
    decreases 4 - d
  {
    if d >= 4 then []
    else
      var rest := NextFrom(g, p, d + 1);
      match Neighbour(g, p, d)
      case Some(n) => if Rises(g, p, n) then [n] + rest else rest
      case None => rest
  }

  /** `Grid::next`: the neighbours one higher, up, left, down, right. */
  function Next(g: Grid, p: Coords): seq<Coords>
    requires Valid(g) && InGrid(g, p)
  {
    NextFrom(g, p, 0)
  }

  lemma {:induction false} NextFromMembers(g: Grid, p: Coords, d: nat, n: Coords)
    requires Valid(g) && InGrid(g, p)
    ensures n in NextFrom(g, p, d) <==> exists e :: d <= e < 4 && Neighbour(g, p, e) == Some(n) && Rises(g, p, n)
    decreases 4 - d
  {
    if d < 4 {
      NextFromMembers(g, p, d + 1, n);
      if Neighbour(g, p, d) == Some(n) && Rises(g, p, n) {
        assert n in NextFrom(g, p, d);
      }
    }
  }

  /** The climbing steps from `p` are exactly its in-grid orthogonal
      neighbours one higher. */
  lemma NextMembers(g: Grid, p: Coords)
    requires Valid(g) && InGrid(g, p)
    ensures forall n :: n in Next(g, p) <==> InGrid(g, n) && Adjacent(p, n) && Height(g, n) == Height(g, p) + 1
  {
    forall n
      ensures n in Next(g, p) <==> InGrid(g, n) && Adjacent(p, n) && Height(g, n) == Height(g, p) + 1
    {
      NextFromMembers(g, p, 0, n);
      if InGrid(g, n) && Adjacent(p, n) {
        NeighbourComplete(g, p, n);
      }
    }
  }

  /** Cells of one height, as `next` returns them. */
  predicate Siblings(g: Grid, ns: seq<Coords>, h: nat)
  {
    Valid(g) && forall k :: 0 <= k < |ns| ==> InGrid(g, ns[k]) && Height(g, ns[k]) == h
  }

  lemma NextSiblings(g: Grid, p: Coords)
    requires Valid(g) && InGrid(g, p)
    ensures Siblings(g, Next(g, p), Height(g, p) + 1)
  {
    var ns := Next(g, p);
    NextMembers(g, p);
    forall k | 0 <= k < |ns| ensures InGrid(g, ns[k]) && Height(g, ns[k]) == Height(g, p) + 1 {
      assert ns[k] in ns;
    }
  }

  // ----- what a search from one cell finds -----

  /** The 9-cells reached by climbing from `p`, as indices; a climb stops
      at the first 9. Height grows along every step, so this is well
      founded: the searches terminate. */
  function Ends(g: Grid, p: Coords): set<nat>
    requires Valid(g) && InGrid(g, p)
    decreases 256 - Height(g, p), 0, 0
  {
    EndsOf(g, Next(g, p), Height(g, p) + 1)
  }

  /** A cell of height `h` inside the grid: what `next` returns from a
      cell of height `h - 1`. */
  predicate Climbs(g: Grid, n: Coords, h: nat)
    requires Valid(g)
  {
    InGrid(g, n) && Height(g, n) == h
  }

  /** The ends reached through the siblings `ns` of height `h`. */
  function EndsOf(g: Grid, ns: seq<Coords>, h: nat): set<nat>
    requires Valid(g)
    decreases 256 - h, 1, |ns|
  {
    if |ns| == 0 then {}
    else
      (if !Climbs(g, ns[0], h) then {} else if Final(g, ns[0]) then {ToIndex(g, ns[0])} else Ends(g, ns[0])) +
      EndsOf(g, ns[1..], h)
  }

  /** The cells a search from `p` takes off its queue: `p` and every cell
      below 9 reached by climbing from it. */
  function Visited(g: Grid, p: Coords): set<Coords>
    requires Valid(g) && InGrid(g, p)
    decreases 256 - Height(g, p), 0, 0
  {
    {p} + VisitedOf(g, Next(g, p), Height(g, p) + 1)
  }

  function VisitedOf(g: Grid, ns: seq<Coords>, h: nat): set<Coords>
    requires Valid(g)
    decreases 256 - h, 1, |ns|
  {
    if |ns| == 0 then {}
    else (if !Climbs(g, ns[0], h) || Final(g, ns[0]) then {} else Visited(g, ns[0])) + VisitedOf(g, ns[1..], h)
  }

  /** How many times a search from `p` takes a cell off its queue: the
      queue holds one entry per climb, not one per cell. */
  function TreeSize(g: Grid, p: Coords): nat
    requires Valid(g) && InGrid(g, p)
    decreases 256 - Height(g, p), 0, 0
  {
    1 + Children(g, Next(g, p), Height(g, p) + 1)
  }

  function Children(g: Grid, ns: seq<Coords>, h: nat): nat
    requires Valid(g)
    decreases 256 - h, 1, |ns|
  {
    if |ns| == 0 then 0
    else (if !Climbs(g, ns[0], h) || Final(g, ns[0]) then 0 else TreeSize(g, ns[0])) + Children(g, ns[1..], h)
  }

  /** Handling sibling `ns[k]` settles its share of each measure. */
  lemma SiblingStep(g: Grid, ns: seq<Coords>, k: nat, h: nat)
    requires Siblings(g, ns, h) && k < |ns|
    ensures InGrid(g, ns[k]) && Height(g, ns[k]) == h
    ensures EndsOf(g, ns[k..], h) ==
      (if Final(g, ns[k]) then {ToIndex(g, ns[k])} else Ends(g, ns[k])) + EndsOf(g, ns[k + 1..], h)
    ensures VisitedOf(g, ns[k..], h) == (if Final(g, ns[k]) then {} else Visited(g, ns[k])) + VisitedOf(g, ns[k + 1..], h)
    ensures Children(g, ns[k..], h) == (if Final(g, ns[k]) then 0 else TreeSize(g, ns[k])) + Children(g, ns[k + 1..], h)
  {
    assert ns[k..][0] == ns[k];
    assert ns[k..][1..] == ns[k + 1..];
  }

  // ----- the queue -----

  predicate InQueue(g: Grid, queue: seq<Coords>)
  {
    Valid(g) && forall k :: 0 <= k < |queue| ==> InGrid(g, queue[k])
  }

  /** The work still owed by the entries of a queue. */
  function QueueSize(g: Grid, queue: seq<Coords>): nat
    requires Valid(g)
  {
    if |queue| == 0 then 0
    else
      var q := queue[|queue| - 1];
      QueueSize(g, queue[..|queue| - 1]) + (if InGrid(g, q) then TreeSize(g, q) else 0)
  }

  function QueueEnds(g: Grid, queue: seq<Coords>): set<nat>
    requires Valid(g)
  {
    if |queue| == 0 then {}
    else
      var q := queue[|queue| - 1];
      QueueEnds(g, queue[..|queue| - 1]) + (if InGrid(g, q) then Ends(g, q) else {})
  }

  function QueueVisited(g: Grid, queue: seq<Coords>): set<Coords>
    requires Valid(g)
  {
    if |queue| == 0 then {}
    else
      var q := queue[|queue| - 1];
      QueueVisited(g, queue[..|queue| - 1]) + (if InGrid(g, q) then Visited(g, q) else {})
  }

  lemma {:induction false} FrontSize(g: Grid, queue: seq<Coords>)
    requires Valid(g) && |queue| > 0 && InGrid(g, queue[0])
    ensures QueueSize(g, queue) == TreeSize(g, queue[0]) + QueueSize(g, queue[1..])
    decreases |queue|
  {
    if |queue| > 1 {
      FrontSize(g, queue[..|queue| - 1]);
      TakeFront(queue);
    } else {
      assert queue[..0] == [] && queue[1..] == [];
    }
  }

  lemma {:induction false} FrontEnds(g: Grid, queue: seq<Coords>)
    requires Valid(g) && |queue| > 0 && InGrid(g, queue[0])
    ensures QueueEnds(g, queue) == Ends(g, queue[0]) + QueueEnds(g, queue[1..])
    decreases |queue|
  {
    if |queue| > 1 {
      FrontEnds(g, queue[..|queue| - 1]);
      TakeFront(queue);
    } else {
      assert queue[..0] == [] && queue[1..] == [];
    }
  }

  lemma {:induction false} FrontVisited(g: Grid, queue: seq<Coords>)
    requires Valid(g) && |queue| > 0 && InGrid(g, queue[0])
    ensures QueueVisited(g, queue) == Visited(g, queue[0]) + QueueVisited(g, queue[1..])
    decreases |queue|
  {
    if |queue| > 1 {
      FrontVisited(g, queue[..|queue| - 1]);
      TakeFront(queue);
    } else {
      assert queue[..0] == [] && queue[1..] == [];
    }
  }

  lemma TakeFront<T>(s: seq<T>)
    requires |s| > 1
    ensures s[..|s| - 1][1..] == s[1..][..|s| - 2] && s[..|s| - 1][0] == s[0]
    ensures s[1..][|s| - 2] == s[|s| - 1]
  {
  }

  /** Putting an entry at the back of the queue. */
  lemma QueueBack(g: Grid, queue: seq<Coords>, n: Coords)
    requires InQueue(g, queue) && InGrid(g, n)
    ensures InQueue(g, queue + [n])
    ensures QueueSize(g, queue + [n]) == QueueSize(g, queue) + TreeSize(g, n)
    ensures QueueEnds(g, queue + [n]) == QueueEnds(g, queue) + Ends(g, n)
    ensures QueueVisited(g, queue + [n]) == QueueVisited(g, queue) + Visited(g, n)
  {
    assert (queue + [n])[..|queue|] == queue;
  }

  /** The search starts with `start` alone on the queue. */
  lemma StartQueue(g: Grid, start: Coords)
    requires Valid(g) && InGrid(g, start)
    ensures InQueue(g, [start])
    ensures QueueEnds(g, [start]) == Ends(g, start) && QueueVisited(g, [start]) == Visited(g, start)
  {
    assert [start][..0] == [];
  }

  /** The front entry stands for itself and its children. */
  lemma PopNode(g: Grid, queue: seq<Coords>, next: seq<Coords>, h: nat)
    requires InQueue(g, queue) && |queue| > 0
    requires next == Next(g, queue[0]) && h == Height(g, queue[0]) + 1
    ensures InQueue(g, queue[1..]) && Siblings(g, next, h)
    ensures QueueSize(g, queue) == 1 + Children(g, next, h) + QueueSize(g, queue[1..])
    ensures QueueEnds(g, queue) == EndsOf(g, next, h) + QueueEnds(g, queue[1..])
    ensures QueueVisited(g, queue) == {queue[0]} + VisitedOf(g, next, h) + QueueVisited(g, queue[1..])
  {
    NextSiblings(g, queue[0]);
    QueueRest(g, queue);
    FrontSize(g, queue);
    FrontEnds(g, queue);
    FrontVisited(g, queue);
  }

  lemma QueueRest(g: Grid, queue: seq<Coords>)
    requires InQueue(g, queue) && |queue| > 0
    ensures InQueue(g, queue[1..])
  {
    forall k | 0 <= k < |queue[1..]| ensures InGrid(g, queue[1..][k]) {
      assert queue[1..][k] == queue[k + 1];
    }
  }

  // ----- part 1 -----

  /** The indices the search has counted at least once. */
  function Marked(found: seq<nat>): set<nat>
  {
    set i | 0 <= i < |found| && found[i] > 0
  }

  /** `found.iter().filter(|&&b| b > 0).count()`. */
  function CountMarked(found: seq<nat>): (n: nat)
    ensures n == |Marked(found)|
  {
    if |found| == 0 then 0
    else
      var init := found[..|found| - 1];
      var last := |found| - 1;
      assert Marked(found) == Marked(init) + (if found[last] > 0 then {last} else {});
      CountMarked(init) + (if found[last] > 0 then 1 else 0)
  }

  /** Counting index `i` once more marks it. */
  lemma MarkOne(found: seq<nat>, i: nat)
    requires i < |found|
    ensures Marked(found[i := found[i] + 1]) == Marked(found) + {i}
  {
  }

  /** `vec![0; n]`. */
  function NoneFound(n: nat): (r: seq<nat>)
    ensures |r| == n && Marked(r) == {}
  {
    if n == 0 then [] else NoneFound(n - 1) + [0]
  }

  /** `bfs_without_trail`: the number of distinct 9-cells reached. */
  method BfsWithoutTrail(g: Grid, start: Coords) returns (count: nat)
    requires Valid(g) && InGrid(g, start)
    ensures count == |Ends(g, start)|
  {
    var found := NoneFound(|g.cells|);
    var queue := [start];
    StartQueue(g, start);
    while |queue| > 0
      invariant InQueue(g, queue) && |found| == |g.cells|
      invariant Marked(found) + QueueEnds(g, queue) == Ends(g, start)
      decreases QueueSize(g, queue)
    {
      found, queue := Visit(g, found, queue);
    }
    count := CountMarked(found);
  }

  /** One round of the `while let` loop: the front cell leaves the queue
      and its children are handled. */
  method Visit(g: Grid, found: seq<nat>, queue: seq<Coords>) returns (found': seq<nat>, queue': seq<Coords>)
    requires InQueue(g, queue) && |queue| > 0 && |found| == |g.cells|
    ensures InQueue(g, queue') && |found'| == |g.cells|
    ensures Marked(found') + QueueEnds(g, queue') == Marked(found) + QueueEnds(g, queue)
    ensures QueueSize(g, queue') < QueueSize(g, queue)
    ensures QueueVisited(g, queue) == {queue[0]} + QueueVisited(g, queue')
  {
    var node := queue[0];
    var next, h := Next(g, node), Height(g, node) + 1;
    PopNode(g, queue, next, h);
    found', queue' := VisitChildren(g, found, queue[1..], next, h);
  }

  /** The `for n in next` loop: 9s are counted, anything else queued. */
  method VisitChildren(g: Grid, found: seq<nat>, queue: seq<Coords>, next: seq<Coords>, h: nat)
    returns (found': seq<nat>, queue': seq<Coords>)
    requires InQueue(g, queue) && |found| == |g.cells| && Siblings(g, next, h)
    ensures InQueue(g, queue') && |found'| == |g.cells|
    ensures Marked(found') + QueueEnds(g, queue') == Marked(found) + QueueEnds(g, queue) + EndsOf(g, next, h)
    ensures QueueSize(g, queue') == QueueSize(g, queue) + Children(g, next, h)
    ensures QueueVisited(g, queue') == QueueVisited(g, queue) + VisitedOf(g, next, h)
  {
    found', queue' := found, queue;
    var rest := next;
    while |rest| > 0
      invariant InQueue(g, queue') && |found'| == |g.cells| && Siblings(g, rest, h)
      invariant Marked(found') + QueueEnds(g, queue') + EndsOf(g, rest, h) == Marked(found) + QueueEnds(g, queue) + EndsOf(g, next, h)
      invariant QueueSize(g, queue') + Children(g, rest, h) == QueueSize(g, queue) + Children(g, next, h)
      invariant QueueVisited(g, queue') + VisitedOf(g, rest, h) == QueueVisited(g, queue) + VisitedOf(g, next, h)
    {
      var n := rest[0];
      if Final(g, n) {
        CountStep(g, found', queue', rest, h);
        found' := found'[ToIndex(g, n) := found'[ToIndex(g, n)] + 1];
      } else {
        QueueStep(g, found', queue', rest, h);
        queue' := queue' + [n];
      }
      rest := rest[1..];
    }
  }

  /** A 9 among the children is counted in `found`. */
  lemma CountStep(g: Grid, found: seq<nat>, queue: seq<Coords>, rest: seq<Coords>, h: nat)
    requires Valid(g) && |found| == |g.cells| && Siblings(g, rest, h) && |rest| > 0 && Final(g, rest[0])
    ensures ToIndex(g, rest[0]) < |found| && Siblings(g, rest[1..], h)
    ensures Marked(found[ToIndex(g, rest[0]) := found[ToIndex(g, rest[0])] + 1]) + QueueEnds(g, queue) + EndsOf(g, rest[1..], h) ==
      Marked(found) + QueueEnds(g, queue) + EndsOf(g, rest, h)
    ensures Children(g, rest[1..], h) == Children(g, rest, h)
    ensures VisitedOf(g, rest[1..], h) == VisitedOf(g, rest, h)
  {
    var i := ToIndex(g, rest[0]);
    IndexInGrid(g, rest[0]);
    MarkOne(found, i);
    MoveLeft(Marked(found), QueueEnds(g, queue), {i}, EndsOf(g, rest[1..], h));
  }

  /** Any other child joins the back of the queue. */
  lemma QueueStep(g: Grid, found: seq<nat>, queue: seq<Coords>, rest: seq<Coords>, h: nat)
    requires InQueue(g, queue) && Siblings(g, rest, h) && |rest| > 0 && !Final(g, rest[0])
    ensures InQueue(g, queue + [rest[0]]) && Siblings(g, rest[1..], h)
    ensures Marked(found) + QueueEnds(g, queue + [rest[0]]) + EndsOf(g, rest[1..], h) ==
      Marked(found) + QueueEnds(g, queue) + EndsOf(g, rest, h)
    ensures QueueSize(g, queue + [rest[0]]) + Children(g, rest[1..], h) == QueueSize(g, queue) + Children(g, rest, h)
    ensures QueueVisited(g, queue + [rest[0]]) + VisitedOf(g, rest[1..], h) == QueueVisited(g, queue) + VisitedOf(g, rest, h)
  {
    QueueBack(g, queue, rest[0]);
    MoveMiddle(QueueVisited(g, queue), {}, Visited(g, rest[0]), VisitedOf(g, rest[1..], h));
    MoveMiddle(Marked(found), QueueEnds(g, queue), Ends(g, rest[0]), EndsOf(g, rest[1..], h));
  }

  lemma MoveLeft<T>(a: set<T>, b: set<T>, d: set<T>, c: set<T>)
    ensures (a + d) + b + c == a + b + (d + c)
  {
  }

  lemma MoveMiddle<T>(a: set<T>, b: set<T>, d: set<T>, c: set<T>)
    ensures a + (b + d) + c == a + b + (d + c)
  {
  }

  /** What the search counts are 9-cells. */
  lemma {:induction false} EndsAreNines(g: Grid, p: Coords)
    requires Valid(g) && InGrid(g, p)
    ensures forall t :: t in Ends(g, p) ==> t < |g.cells| && g.cells[t] == 9
    decreases 256 - Height(g, p), 0, 0
  {
    EndsOfAreNines(g, Next(g, p), Height(g, p) + 1);
  }

  lemma {:induction false} EndsOfAreNines(g: Grid, ns: seq<Coords>, h: nat)
    requires Valid(g)
    ensures forall t :: t in EndsOf(g, ns, h) ==> t < |g.cells| && g.cells[t] == 9
    decreases 256 - h, 1, |ns|
  {
    if |ns| > 0 {
      if !Climbs(g, ns[0], h) {
      } else if Final(g, ns[0]) {
        IndexInGrid(g, ns[0]);
      } else {
        EndsAreNines(g, ns[0]);
      }
      EndsOfAreNines(g, ns[1..], h);
    }
  }

  function Nines(g: Grid): set<nat>
  {
    set i | 0 <= i < |g.cells| && g.cells[i] == 9
  }

  /** A trailhead's score is at most the number of 9-cells. */
  lemma ScoreBound(g: Grid, p: Coords)
    requires Valid(g) && InGrid(g, p)
    ensures |Ends(g, p)| <= |Nines(g)|
  {
    EndsAreNines(g, p);
    assert Ends(g, p) <= Nines(g);
    SubsetCard(Ends(g, p), Nines(g));
  }

  /** The total of `score` over the trailheads among the first `i`
      cells, in the order `get_zeros` yields them. */
  function TotalOver(g: Grid, i: nat, score: Coords -> nat): nat
    requires Valid(g) && i <= |g.cells|
  {
    if i == 0 then 0
    else TotalOver(g, i - 1, score) + (if g.cells[i - 1] == 0 then score(ToCoords(g, i - 1)) else 0)
  }

  /** The number of trailheads among the first `i` cells. */
  function Zeros(g: Grid, i: nat): (r: nat)
    requires Valid(g) && i <= |g.cells|
  {
    if i == 0 then 0 else Zeros(g, i - 1) + (if g.cells[i - 1] == 0 then 1 else 0)
  }

  ghost function Score(g: Grid): Coords -> nat
    requires Valid(g)
  {
    p => if InGrid(g, p) then |Ends(g, p)| else 0
  }

  lemma {:induction false} TotalBound(g: Grid, i: nat, score: Coords -> nat, m: nat)
    requires Valid(g) && i <= |g.cells|
    requires forall p :: InGrid(g, p) ==> score(p) <= m
    ensures TotalOver(g, i, score) <= Zeros(g, i) * m
  {
    if i > 0 {
      TotalBound(g, i - 1, score, m);
      if g.cells[i - 1] == 0 {
        CoordsInGrid(g, i - 1);
        MulSucc(Zeros(g, i - 1), m);
      }
    }
  }

  lemma MulSucc(a: nat, m: nat)
    ensures (a + 1) * m == a * m + m
  {
  }

  /** `part1`: the sum of the trailheads' scores; `None` where
      `Grid::from_bytes` panics. */
  method Part1(input: seq<char>) returns (r: Option<nat>)
    ensures r.Some? <==> FromBytes(input).Some?
    ensures r.Some? ==> r.value == TotalOver(FromBytes(input).value, |FromBytes(input).value.cells|, Score(FromBytes(input).value))
  {
    var parsed := FromBytes(input);
    if parsed.None? {
      return None;
    }
    var g := parsed.value;
    var total := 0;
    var i := 0;
    while i < |g.cells|
      invariant i <= |g.cells| && total == TotalOver(g, i, Score(g))
    {
      if g.cells[i] == 0 {
        CoordsInGrid(g, i);
        var s := BfsWithoutTrail(g, ToCoords(g, i));
        total := total + s;
      }
      i := i + 1;
    }
    return Some(total);
  }

  /** Part 1 is at most one 9-cell per trailhead and 9-cell pair. */
  lemma Part1Bound(g: Grid)
    requires Valid(g)
    ensures TotalOver(g, |g.cells|, Score(g)) <= Zeros(g, |g.cells|) * |Nines(g)|
  {
    forall p | InGrid(g, p) ensures Score(g)(p) <= |Nines(g)| {
      ScoreBound(g, p);
    }
    TotalBound(g, |g.cells|, Score(g), |Nines(g)|);
  }

  // ----- part 2: rebuilding trails from predecessor lists -----

  /** Every predecessor of index `i` is an index of lower rank: the
      climbs only go up, so the backward walks end. */
  predicate Ranked(preds: seq<seq<nat>>, rank: seq<U8>)
  {
    |rank| == |preds| &&
    forall i, k :: 0 <= i < |preds| && 0 <= k < |preds[i]| ==> preds[i][k] < |preds| && rank[preds[i][k]] < rank[i]
  }

  /** Paths that end inside the table at a rank below `h`. */
  predicate Open(preds: seq<seq<nat>>, rank: seq<U8>, paths: seq<seq<nat>>, h: nat)
  {
    |rank| == |preds| &&
    forall j :: 0 <= j < |paths| ==> |paths[j]| > 0 && Last(paths[j]) < |preds| && rank[Last(paths[j])] < h
  }

  function Last(s: seq<nat>): nat
    requires |s| > 0
  {
    s[|s| - 1]
  }

  /** `path` extended by each predecessor in turn. */
  function Extensions(path: seq<nat>, ps: seq<nat>): (r: seq<seq<nat>>)
    ensures |r| == |ps| && forall k :: 0 <= k < |ps| ==> r[k] == path + [ps[k]]
  {
    if |ps| == 0 then [] else [path + [ps[0]]] + Extensions(path, ps[1..])
  }

  /** `Grid::reconstruct_paths`: every path grows backwards through the
      predecessor lists until it reaches a node with none. */
  function Reconstruct(preds: seq<seq<nat>>, rank: seq<U8>, paths: seq<seq<nat>>, h: nat): seq<seq<nat>>
    requires Ranked(preds, rank) && Open(preds, rank, paths, h)
    decreases h, 1, |paths|
  {
    if |paths| == 0 then []
    else Grow(preds, rank, paths[0]) + Reconstruct(preds, rank, paths[1..], h)
  }

  /** The body of the `flat_map` for one path. */
  function Grow(preds: seq<seq<nat>>, rank: seq<U8>, path: seq<nat>): seq<seq<nat>>
    requires Ranked(preds, rank) && |path| > 0 && Last(path) < |preds|
    decreases rank[Last(path)] as int + 1, 0, 0
  {
    var ps := preds[Last(path)];
    if |ps| == 0 then [path]
    else Reconstruct(preds, rank, Extensions(path, ps), rank[Last(path)])
  }

  /** `b` continues `a` by predecessor links and stops at a node without
      predecessors. */
  predicate Completes(preds: seq<seq<nat>>, a: seq<nat>, b: seq<nat>)
  {
    0 < |a| <= |b| && a == b[..|a|] &&
    (forall k :: |a| - 1 <= k < |b| - 1 ==> b[k] < |preds| && b[k + 1] in preds[b[k]]) &&
    Last(b) < |preds| && |preds[Last(b)]| == 0
  }

  /** The paths `Reconstruct` returns are exactly the completions of its
      input paths. */
  lemma {:induction false} ReconstructPaths(preds: seq<seq<nat>>, rank: seq<U8>, paths: seq<seq<nat>>, h: nat, b: seq<nat>)
    requires Ranked(preds, rank) && Open(preds, rank, paths, h)
    ensures b in Reconstruct(preds, rank, paths, h) <==> exists j :: 0 <= j < |paths| && Completes(preds, paths[j], b)
    decreases h, 1, |paths|
  {
    if |paths| > 0 {
      GrowPaths(preds, rank, paths[0], b);
      ReconstructPaths(preds, rank, paths[1..], h, b);
      if exists j :: 0 <= j < |paths| && Completes(preds, paths[j], b) {
        var j :| 0 <= j < |paths| && Completes(preds, paths[j], b);
        if j > 0 {
          assert paths[1..][j - 1] == paths[j];
        }
      }
      if exists j :: 0 <= j < |paths[1..]| && Completes(preds, paths[1..][j], b) {
        var j :| 0 <= j < |paths[1..]| && Completes(preds, paths[1..][j], b);
        assert paths[1..][j] == paths[j + 1];
      }
    }
  }

  lemma {:induction false} GrowPaths(preds: seq<seq<nat>>, rank: seq<U8>, path: seq<nat>, b: seq<nat>)
    requires Ranked(preds, rank) && |path| > 0 && Last(path) < |preds|
    ensures b in Grow(preds, rank, path) <==> Completes(preds, path, b)
    decreases rank[Last(path)] as int + 1, 0, 0
  {
    var ps := preds[Last(path)];
    if |ps| == 0 {
      LeafCompletes(preds, path, b);
    } else {
      var exts := Extensions(path, ps);
      ReconstructPaths(preds, rank, exts, rank[Last(path)], b);
      if Completes(preds, path, b) {
        InnerCompletes(preds, path, b);
      }
      if exists j :: 0 <= j < |exts| && Completes(preds, exts[j], b) {
        var j :| 0 <= j < |exts| && Completes(preds, exts[j], b);
        ExtensionCompletes(preds, path, ps[j], b);
      }
    }
  }

  /** At a node without predecessors the only completion is the path. */
  lemma LeafCompletes(preds: seq<seq<nat>>, path: seq<nat>, b: seq<nat>)
    requires |path| > 0 && Last(path) < |preds| && |preds[Last(path)]| == 0
    ensures Completes(preds, path, b) <==> b == path
  {
    CompletesAt(preds, path, b);
  }

  /** A completion longer than its start takes a predecessor of it. */
  lemma CompletesAt(preds: seq<seq<nat>>, a: seq<nat>, b: seq<nat>)
    ensures Completes(preds, a, b) && |b| > |a| ==> Last(a) < |preds| && b[|a|] in preds[Last(a)]
  {
    if Completes(preds, a, b) && |b| > |a| {
      var k := |a| - 1;
      assert b[k] == a[k];
      assert b[k + 1] in preds[b[k]];
    }
  }

  /** Past a node with predecessors a completion goes through one. */
  lemma InnerCompletes(preds: seq<seq<nat>>, path: seq<nat>, b: seq<nat>)
    requires |path| > 0 && Last(path) < |preds| && |preds[Last(path)]| > 0 && Completes(preds, path, b)
    ensures |b| > |path| && b[|path|] in preds[Last(path)] && Completes(preds, path + [b[|path|]], b)
  {
    assert b[|path| - 1] == Last(path);
    assert b[..|path| + 1] == path + [b[|path|]];
  }

  lemma ExtensionCompletes(preds: seq<seq<nat>>, path: seq<nat>, p: nat, b: seq<nat>)
    requires |path| > 0 && Last(path) < |preds| && p in preds[Last(path)] && Completes(preds, path + [p], b)
    ensures Completes(preds, path, b)
  {
    assert b[..|path|] == (path + [p])[..|path|] == path;
    assert b[|path|] == p;
  }

  // ----- part 2: the search that records predecessors -----

  function Elems(s: seq<nat>): set<nat>
  {
    set x | x in s
  }

  /** The indices of the cells of `taken` from which one climbing step
      leads to index `i`. */
  ghost function Owed(g: Grid, taken: set<Coords>, i: nat): set<nat>
    requires Valid(g)
  {
    set m | m in taken && InGrid(g, m) && ToCoords(g, i) in Next(g, m) :: ToIndex(g, m)
  }

  lemma OwedUnion(g: Grid, a: set<Coords>, b: set<Coords>, i: nat)
    requires Valid(g)
    ensures Owed(g, a + b, i) == Owed(g, a, i) + Owed(g, b, i)
  {
  }

  /** Some entry of `ns` has index `i`. */
  predicate Hits(g: Grid, ns: seq<Coords>, i: nat)
  {
    exists n :: n in ns && ToIndex(g, n) == i
  }

  /** The predecessor lists the search starts from: `vec![vec![]; n]`. */
  function NoPreds(n: nat): (r: seq<seq<nat>>)
    ensures |r| == n && forall i :: 0 <= i < n ==> Elems(r[i]) == {}
  {
    if n == 0 then [] else NoPreds(n - 1) + [[]]
  }

  /** The `predecessors[to_index(n)].push(to_index(node))` of one round:
      `node` joins the list of each cell it climbs to. */
  method RecordPreds(g: Grid, preds: seq<seq<nat>>, node: Coords) returns (preds': seq<seq<nat>>)
    requires Valid(g) && InGrid(g, node) && |preds| == |g.cells|
    ensures |preds'| == |preds|
    ensures forall i :: 0 <= i < |preds| ==> Elems(preds'[i]) == Elems(preds[i]) + Owed(g, {node}, i)
  {
    var next := Next(g, node);
    var from := ToIndex(g, node);
    NextSiblings(g, node);
    preds' := preds;
    var k := 0;
    while k < |next|
      invariant k <= |next| && |preds'| == |preds|
      invariant forall i :: 0 <= i < |preds| ==> Elems(preds'[i]) == Elems(preds[i]) + (if Hits(g, next[..k], i) then {from} else {})
    {
      var t := ToIndex(g, next[k]);
      IndexInGrid(g, next[k]);
      PushStep(g, preds, preds', next, k, from);
      preds' := preds'[t := preds'[t] + [from]];
      k := k + 1;
    }
    assert next[..k] == next;
    forall i | 0 <= i < |preds| ensures Hits(g, next, i) <==> ToCoords(g, i) in next {
      HitsCoords(g, node, i);
    }
  }

  lemma PushStep(g: Grid, preds: seq<seq<nat>>, cur: seq<seq<nat>>, next: seq<Coords>, k: nat, from: nat)
    requires |cur| == |preds| && k < |next| && ToIndex(g, next[k]) < |cur|
    requires forall i :: 0 <= i < |preds| ==> Elems(cur[i]) == Elems(preds[i]) + (if Hits(g, next[..k], i) then {from} else {})
    ensures var t := ToIndex(g, next[k]); var cur' := cur[t := cur[t] + [from]];
      forall i :: 0 <= i < |preds| ==> Elems(cur'[i]) == Elems(preds[i]) + (if Hits(g, next[..k + 1], i) then {from} else {})
  {
    var t := ToIndex(g, next[k]);
    assert next[..k + 1] == next[..k] + [next[k]];
    forall i | 0 <= i < |preds| ensures Hits(g, next[..k + 1], i) <==> Hits(g, next[..k], i) || i == t {
      if i == t {
        assert next[k] in next[..k + 1];
      }
    }
    assert Elems(cur[t] + [from]) == Elems(cur[t]) + {from};
  }

  /** For the cells `next` returns, index `i` is hit exactly when its
      coordinates are among them. */
  lemma HitsCoords(g: Grid, node: Coords, i: nat)
    requires Valid(g) && InGrid(g, node)
    ensures Hits(g, Next(g, node), i) <==> ToCoords(g, i) in Next(g, node)
  {
    NextMembers(g, node);
    IndexOfCoords(g, i);
    if Hits(g, Next(g, node), i) {
      var n :| n in Next(g, node) && ToIndex(g, n) == i;
      CoordsOfIndex(g, n);
    }
  }

  /** The `while let` loop of `bfs`: besides counting the 9s it records,
      for every cell, the indices of the visited cells that climb to it. */
  method SearchPreds(g: Grid, start: Coords) returns (found: seq<nat>, preds: seq<seq<nat>>)
    requires Valid(g) && InGrid(g, start)
    ensures |found| == |g.cells| && Marked(found) == Ends(g, start)
    ensures |preds| == |g.cells|
    ensures forall i :: 0 <= i < |preds| ==> Elems(preds[i]) == Owed(g, Visited(g, start), i)
  {
    found := NoneFound(|g.cells|);
    preds := NoPreds(|g.cells|);
    var queue := [start];
    StartQueue(g, start);
    while |queue| > 0
      invariant InQueue(g, queue) && |found| == |g.cells| && |preds| == |g.cells|
      invariant Marked(found) + QueueEnds(g, queue) == Ends(g, start)
      invariant forall i :: 0 <= i < |preds| ==> Elems(preds[i]) + Owed(g, QueueVisited(g, queue), i) == Owed(g, Visited(g, start), i)
      decreases QueueSize(g, queue)
    {
      var preds' := RecordPreds(g, preds, queue[0]);
      var found', queue' := Visit(g, found, queue);
      forall i | 0 <= i < |preds|
        ensures Elems(preds'[i]) + Owed(g, QueueVisited(g, queue'), i) == Owed(g, Visited(g, start), i)
      {
        OwedUnion(g, {queue[0]}, QueueVisited(g, queue'), i);
      }
      found, queue, preds := found', queue', preds';
    }
    assert QueueVisited(g, queue) == {};
  }

  /** The members of `s` below `n`, in increasing order. */
  function Ascending(s: set<nat>, n: nat): (r: seq<nat>)
    ensures Sorting.StrictlySorted(r)
    ensures forall x :: x in r <==> x in s && x < n
  {
    if n == 0 then []
    else
      var init := Ascending(s, n - 1);
      if n - 1 in s then
        assert forall k :: 0 <= k < |init| ==> init[k] in init;
        init + [n - 1]
      else init
  }

  /** `preds.sort(); preds.dedup();` on one list. */
  function Clean(s: seq<nat>): (r: seq<nat>)
    ensures Sorting.StrictlySorted(r) && Elems(r) == Elems(s)
  {
    Sorting.InSort(s);
    var d := Sorting.Dedup(Sorting.Sort(s));
    assert forall k :: 0 <= k < |d| ==> d[k] in d;
    d
  }

  /** The `for_each` that cleans every predecessor list. */
  function Normalize(preds: seq<seq<nat>>): (r: seq<seq<nat>>)
    ensures |r| == |preds|
    ensures forall i :: 0 <= i < |r| ==> Sorting.StrictlySorted(r[i]) && Elems(r[i]) == Elems(preds[i])
  {
    seq(|preds|, i requires 0 <= i < |preds| => Clean(preds[i]))
  }

  /** Each index as a path of one node. */
  function Singletons(s: seq<nat>): (r: seq<seq<nat>>)
    ensures |r| == |s| && forall k :: 0 <= k < |s| ==> r[k] == [s[k]]
  {
    if |s| == 0 then [] else [[s[0]]] + Singletons(s[1..])
  }

  function Distinct(paths: seq<seq<nat>>): set<seq<nat>>
  {
    set b | b in paths
  }

  /** The cleaned predecessor table of a search from `start`: for every
      cell, the visited cells one step below it, in increasing order. */
  ghost function Table(g: Grid, start: Coords): (t: seq<seq<nat>>)
    requires Valid(g) && InGrid(g, start)
    ensures |t| == |g.cells|
  {
    seq(|g.cells|, i requires 0 <= i < |g.cells| => Ascending(Owed(g, Visited(g, start), i), |g.cells|))
  }

  /** Only cells inside the grid are owed. */
  lemma OwedInGrid(g: Grid, taken: set<Coords>, i: nat)
    requires Valid(g)
    ensures forall x :: x in Owed(g, taken, i) ==> x < |g.cells|
  {
    forall m | m in taken && InGrid(g, m) ensures ToIndex(g, m) < |g.cells| {
      IndexInGrid(g, m);
    }
  }

  /** A predecessor sits exactly one below the cell it leads to. */
  lemma OwedBelow(g: Grid, taken: set<Coords>, i: nat, x: nat)
    requires Valid(g) && i < |g.cells| && x in Owed(g, taken, i)
    ensures x < |g.cells| && g.cells[x] + 1 == g.cells[i]
  {
    var m :| m in taken && InGrid(g, m) && ToCoords(g, i) in Next(g, m) && ToIndex(g, m) == x;
    IndexInGrid(g, m);
    NextMembers(g, m);
    IndexOfCoords(g, i);
  }

  /** The table ranks every predecessor below its cell by height. */
  lemma TableRanked(g: Grid, start: Coords)
    requires Valid(g) && InGrid(g, start)
    ensures Ranked(Table(g, start), g.cells)
  {
    var t := Table(g, start);
    forall i, k | 0 <= i < |t| && 0 <= k < |t[i]| ensures t[i][k] < |t| && g.cells[t[i][k]] < g.cells[i] {
      assert t[i][k] in t[i];
      OwedBelow(g, Visited(g, start), i, t[i][k]);
    }
  }

  /** The trailheads of the rebuilt trails: the counted 9s, in index order. */
  ghost function Heads(g: Grid, start: Coords): (r: seq<seq<nat>>)
    requires Valid(g) && InGrid(g, start)
    ensures Open(Table(g, start), g.cells, r, 256)
  {
    EndsAreNines(g, start);
    var asc := Ascending(Ends(g, start), |g.cells|);
    assert forall k :: 0 <= k < |asc| ==> asc[k] in asc;
    Singletons(asc)
  }

  /** Every trail `reconstruct_paths` rebuilds for a search from `start`. */
  ghost function Trails(g: Grid, start: Coords): seq<seq<nat>>
    requires Valid(g) && InGrid(g, start)
  {
    TableRanked(g, start);
    Reconstruct(Table(g, start), g.cells, Heads(g, start), 256)
  }

  /** A rebuilt trail is a walk down the table from a reached 9 to a cell
      without predecessors. */
  lemma TrailsComplete(g: Grid, start: Coords, b: seq<nat>)
    requires Valid(g) && InGrid(g, start)
    ensures b in Trails(g, start) <==> exists e :: e in Ends(g, start) && Completes(Table(g, start), [e], b)
  {
    TableRanked(g, start);
    EndsAreNines(g, start);
    var asc := Ascending(Ends(g, start), |g.cells|);
    var heads := Heads(g, start);
    ReconstructPaths(Table(g, start), g.cells, heads, 256, b);
    if exists j :: 0 <= j < |heads| && Completes(Table(g, start), heads[j], b) {
      var j :| 0 <= j < |heads| && Completes(Table(g, start), heads[j], b);
      assert asc[j] in asc;
    }
    if exists e :: e in Ends(g, start) && Completes(Table(g, start), [e], b) {
      var e :| e in Ends(g, start) && Completes(Table(g, start), [e], b);
      var j :| 0 <= j < |asc| && asc[j] == e;
      assert heads[j] == [e];
    }
  }

  /** `bfs`: the number of distinct trails from `start`. */
  ghost function Rating(g: Grid, start: Coords): nat
    requires Valid(g) && InGrid(g, start)
  {
    |Distinct(Trails(g, start))|
  }

  /** The cleaned lists the search builds are the reference table. */
  lemma NormalizedTable(g: Grid, start: Coords, preds: seq<seq<nat>>)
    requires Valid(g) && InGrid(g, start) && |preds| == |g.cells|
    requires forall i :: 0 <= i < |preds| ==> Elems(preds[i]) == Owed(g, Visited(g, start), i)
    ensures Normalize(preds) == Table(g, start)
  {
    var t, r := Table(g, start), Normalize(preds);
    forall i | 0 <= i < |t| ensures r[i] == t[i] {
      OwedInGrid(g, Visited(g, start), i);
      Sorting.StrictlySortedUnique(r[i], t[i]);
    }
  }

  /** `Grid::bfs`: the trail rating of `start`. */
  method Bfs(g: Grid, start: Coords) returns (rating: nat)
    requires Valid(g) && InGrid(g, start)
    ensures rating == Rating(g, start)
  {
    var found, preds := SearchPreds(g, start);
    var table := Normalize(preds);
    NormalizedTable(g, start, preds);
    TableRanked(g, start);
    var heads := Singletons(Ascending(Marked(found), |found|));
    assert heads == Heads(g, start);
    var paths := Reconstruct(table, g.cells, heads, 256);
    rating := |Distinct(paths)|;
  }

  // ----- part 2: what the rebuilt trails are -----

  /** Some cell of `from` climbs to `c` in one step. */
  ghost predicate Reached(g: Grid, from: set<Coords>, c: Coords)
    requires Valid(g)
  {
    exists m :: m in from && InGrid(g, m) && c in Next(g, m)
  }

  lemma ReachedMono(g: Grid, a: set<Coords>, b: set<Coords>, c: Coords)
    requires Valid(g) && a <= b
    ensures Reached(g, a, c) ==> Reached(g, b, c)
  {
    if Reached(g, a, c) {
      var m :| m in a && InGrid(g, m) && c in Next(g, m);
      assert m in b;
    }
  }

  /** The 9-cell with index `e` is in `ns` or climbed to from a cell of
      `v`. */
  ghost predicate EndReached(g: Grid, e: nat, ns: seq<Coords>, v: set<Coords>)
    requires Valid(g)
  {
    exists n :: InGrid(g, n) && ToIndex(g, n) == e && (n in ns || Reached(g, v, n))
  }

  /** Every cell a search from `p` takes off its queue is `p` or was
      pushed by another such cell, and every 9 it counts was reached from
      one; all of them lie at least as high as `p`. */
  lemma {:induction false} VisitedShape(g: Grid, p: Coords)
    requires Valid(g) && InGrid(g, p)
    ensures forall c :: c in Visited(g, p) ==>
      InGrid(g, c) && Height(g, c) >= Height(g, p) && (c == p || Reached(g, Visited(g, p), c))
    ensures forall e :: e in Ends(g, p) ==> EndReached(g, e, [], Visited(g, p))
    decreases 256 - Height(g, p), 0, 0
  {
    var ns := Next(g, p);
    VisitedOfShape(g, ns, Height(g, p) + 1);
    VisitedCellsLift(g, p, ns, VisitedOf(g, ns, Height(g, p) + 1));
    VisitedEndsLift(g, p, ns, VisitedOf(g, ns, Height(g, p) + 1), EndsOf(g, ns, Height(g, p) + 1));
  }

  /** The cells half of `VisitedShape`, from what `VisitedOfShape` says
      of the cells `ns` climbs to from `p`. */
  lemma VisitedCellsLift(g: Grid, p: Coords, ns: seq<Coords>, inner: set<Coords>)
    requires Valid(g) && InGrid(g, p) && ns == Next(g, p)
    requires Visited(g, p) == {p} + inner
    requires forall c :: c in inner ==>
      InGrid(g, c) && Height(g, c) > Height(g, p) && (c in ns || Reached(g, inner, c))
    ensures forall c :: c in Visited(g, p) ==>
      InGrid(g, c) && Height(g, c) >= Height(g, p) && (c == p || Reached(g, Visited(g, p), c))
  {
    var v := Visited(g, p);
    forall c | c in v ensures InGrid(g, c) && Height(g, c) >= Height(g, p) && (c == p || Reached(g, v, c)) {
      if c == p {
      } else if c in ns {
        ReachedFromParent(g, p, v, c);
      } else {
        ReachedMono(g, inner, v, c);
      }
    }
  }

  /** The ends half of `VisitedShape`. */
  lemma VisitedEndsLift(g: Grid, p: Coords, ns: seq<Coords>, inner: set<Coords>, ends: set<nat>)
    requires Valid(g) && InGrid(g, p) && ns == Next(g, p)
    requires Visited(g, p) == {p} + inner && Ends(g, p) == ends
    requires forall e :: e in ends ==> EndReached(g, e, ns, inner)
    ensures forall e :: e in Ends(g, p) ==> EndReached(g, e, [], Visited(g, p))
  {
    var v := Visited(g, p);
    forall e | e in Ends(g, p) ensures EndReached(g, e, [], v) {
      assert EndReached(g, e, ns, inner);
      var n :| InGrid(g, n) && ToIndex(g, n) == e && (n in ns || Reached(g, inner, n));
      if n in ns {
        ReachedFromParent(g, p, v, n);
      } else {
        ReachedMono(g, inner, v, n);
      }
      assert InGrid(g, n) && ToIndex(g, n) == e && Reached(g, v, n);
    }
  }

  lemma ReachedFromParent(g: Grid, p: Coords, v: set<Coords>, n: Coords)
    requires Valid(g) && InGrid(g, p) && p in v && n in Next(g, p)
    ensures Reached(g, v, n)
  {
  }

  lemma {:induction false} VisitedOfShape(g: Grid, ns: seq<Coords>, h: nat)
    requires Valid(g)
    ensures forall c :: c in VisitedOf(g, ns, h) ==>
      InGrid(g, c) && Height(g, c) >= h && (c in ns || Reached(g, VisitedOf(g, ns, h), c))
    ensures forall e :: e in EndsOf(g, ns, h) ==>
      EndReached(g, e, ns, VisitedOf(g, ns, h))
    decreases 256 - h, 1, |ns|
  {
    if |ns| > 0 {
      var v, rest := VisitedOf(g, ns, h), VisitedOf(g, ns[1..], h);
      VisitedOfShape(g, ns[1..], h);
      assert forall c :: c in ns[1..] ==> c in ns;
      forall c | c in rest ensures c in ns || Reached(g, v, c) {
        ReachedMono(g, rest, v, c);
      }
      forall e | e in EndsOf(g, ns[1..], h) ensures EndReached(g, e, ns, v) {
        var n :| InGrid(g, n) && ToIndex(g, n) == e && (n in ns[1..] || Reached(g, rest, n));
        ReachedMono(g, rest, v, n);
      }
      var first := ns[0];
      if Climbs(g, first, h) && !Final(g, first) {
        var w := Visited(g, first);
        VisitedShape(g, first);
        forall c | c in w ensures c in ns || Reached(g, v, c) {
          ReachedMono(g, w, v, c);
        }
        forall e | e in Ends(g, first) ensures EndReached(g, e, ns, v) {
          var n :| InGrid(g, n) && ToIndex(g, n) == e && Reached(g, w, n);
          ReachedMono(g, w, v, n);
        }
      }
    }
  }

  /** A cell reached from the visited cells has one of them in its
      predecessor set. */
  lemma ReachedOwed(g: Grid, taken: set<Coords>, n: Coords)
    requires Valid(g) && InGrid(g, n)
    ensures Reached(g, taken, n) ==> Owed(g, taken, ToIndex(g, n)) != {}
  {
    if Reached(g, taken, n) {
      var m :| m in taken && InGrid(g, m) && n in Next(g, m);
      CoordsOfIndex(g, n);
      assert ToIndex(g, m) in Owed(g, taken, ToIndex(g, n));
    }
  }

  /** Only `start` and cells outside the search have no recorded
      predecessor. */
  lemma StartOnlyRoot(g: Grid, start: Coords)
    requires Valid(g) && InGrid(g, start)
    ensures forall m :: m in Visited(g, start) && m != start ==> Owed(g, Visited(g, start), ToIndex(g, m)) != {}
    ensures forall e :: e in Ends(g, start) ==> Owed(g, Visited(g, start), e) != {}
  {
    VisitedShape(g, start);
    forall m | m in Visited(g, start) && m != start ensures Owed(g, Visited(g, start), ToIndex(g, m)) != {} {
      ReachedOwed(g, Visited(g, start), m);
    }
    forall e | e in Ends(g, start) ensures Owed(g, Visited(g, start), e) != {} {
      var n :| InGrid(g, n) && ToIndex(g, n) == e && Reached(g, Visited(g, start), n);
      ReachedOwed(g, Visited(g, start), n);
    }
  }

  /** An index in the table is a visited cell's. */
  lemma TableEntry(g: Grid, start: Coords, i: nat, x: nat)
    requires Valid(g) && InGrid(g, start) && i < |g.cells| && x in Table(g, start)[i]
    ensures exists m :: m in Visited(g, start) && InGrid(g, m) && ToIndex(g, m) == x
  {
  }

  /** An empty table entry means no visited cell climbs there. */
  lemma TableEmpty(g: Grid, start: Coords, i: nat)
    requires Valid(g) && InGrid(g, start) && i < |g.cells| && |Table(g, start)[i]| == 0
    ensures Owed(g, Visited(g, start), i) == {}
  {
    OwedInGrid(g, Visited(g, start), i);
  }

  /** Every rebuilt trail runs from a 9 the search reached back to
      `start`: the trails are the hiking trails of the trailhead. */
  lemma TrailsEndAtStart(g: Grid, start: Coords, b: seq<nat>)
    requires Valid(g) && InGrid(g, start) && b in Trails(g, start)
    ensures |b| > 1 && b[0] in Ends(g, start) && Last(b) == ToIndex(g, start)
  {
    var t := Table(g, start);
    TrailsComplete(g, start, b);
    var e :| e in Ends(g, start) && Completes(t, [e], b);
    assert b[0] == [e][0];
    var last := Last(b);
    TableEmpty(g, start, last);
    StartOnlyRoot(g, start);
    assert |b| > 1;
    var k := |b| - 2;
    assert b[k + 1] in t[b[k]];
    TableEntry(g, start, b[k], last);
    var m :| m in Visited(g, start) && InGrid(g, m) && ToIndex(g, m) == last;
  }

  /** Following first predecessors from any path ends somewhere: every
      path has a completion. */
  lemma {:induction false} SomeCompletion(preds: seq<seq<nat>>, rank: seq<U8>, a: seq<nat>)
    requires Ranked(preds, rank) && |a| > 0 && Last(a) < |preds|
    ensures exists b :: Completes(preds, a, b)
    decreases rank[Last(a)]
  {
    var ps := preds[Last(a)];
    if |ps| == 0 {
      assert Completes(preds, a, a);
    } else {
      var a' := a + [ps[0]];
      SomeCompletion(preds, rank, a');
      var b :| Completes(preds, a', b);
      ExtensionCompletes(preds, a, ps[0], b);
    }
  }

  /** Taking first elements does not make a set larger. */
  lemma {:induction false} HeadsCard(s: set<seq<nat>>)
    ensures |set b | b in s && |b| > 0 :: b[0]| <= |s|
    decreases |s|
  {
    if s != {} {
      var x :| x in s;
      var s' := s - {x};
      HeadsCard(s');
      var img, img' := set b | b in s && |b| > 0 :: b[0], set b | b in s' && |b| > 0 :: b[0];
      assert img <= img' + (if |x| > 0 then {x[0]} else {});
      SubsetCard(img, img' + (if |x| > 0 then {x[0]} else {}));
    }
  }

  /** Every 9 reached from a trailhead starts at least one trail: the
      rating is never below the score. */
  lemma ScoreAtMostRating(g: Grid, start: Coords)
    requires Valid(g) && InGrid(g, start)
    ensures |Ends(g, start)| <= Rating(g, start)
  {
    var t := Table(g, start);
    var d := Distinct(Trails(g, start));
    TableRanked(g, start);
    EndsAreNines(g, start);
    forall e | e in Ends(g, start) ensures e in (set b | b in d && |b| > 0 :: b[0]) {
      SomeCompletion(t, g.cells, [e]);
      var b :| Completes(t, [e], b);
      TrailsComplete(g, start, b);
      assert b[0] == [e][0];
    }
    HeadsCard(d);
    SubsetCard(Ends(g, start), set b | b in d && |b| > 0 :: b[0]);
  }

  ghost function Ratings(g: Grid): Coords -> nat
    requires Valid(g)
  {
    p => if InGrid(g, p) then Rating(g, p) else 0
  }

  /** `part2`: the sum of the trailheads' ratings; `None` where
      `Grid::from_bytes` panics. */
  method Part2(input: seq<char>) returns (r: Option<nat>)
    ensures r.Some? <==> FromBytes(input).Some?
    ensures r.Some? ==> r.value == TotalOver(FromBytes(input).value, |FromBytes(input).value.cells|, Ratings(FromBytes(input).value))
  {
    var parsed := FromBytes(input);
    if parsed.None? {
      return None;
    }
    var g := parsed.value;
    var total := 0;
    var i := 0;
    while i < |g.cells|
      invariant i <= |g.cells| && total == TotalOver(g, i, Ratings(g))
    {
      if g.cells[i] == 0 {
        CoordsInGrid(g, i);
        var s := Bfs(g, ToCoords(g, i));
        total := total + s;
      }
      i := i + 1;
    }
    return Some(total);
  }

  lemma {:induction false} TotalMono(g: Grid, i: nat, lo: Coords -> nat, hi: Coords -> nat)
    requires Valid(g) && i <= |g.cells|
    requires forall p :: InGrid(g, p) ==> lo(p) <= hi(p)
    ensures TotalOver(g, i, lo) <= TotalOver(g, i, hi)
  {
    if i > 0 {
      TotalMono(g, i - 1, lo, hi);
      if g.cells[i - 1] == 0 {
        CoordsInGrid(g, i - 1);
      }
    }
  }

  /** The part 1 answer never exceeds the part 2 answer. */
  lemma ScoresAtMostRatings(g: Grid)
    requires Valid(g)
    ensures TotalOver(g, |g.cells|, Score(g)) <= TotalOver(g, |g.cells|, Ratings(g))
  {
    forall p | InGrid(g, p) ensures Score(g)(p) <= Ratings(g)(p) {
      ScoreAtMostRating(g, p);
    }
    TotalMono(g, |g.cells|, Score(g), Ratings(g));
  }
}
