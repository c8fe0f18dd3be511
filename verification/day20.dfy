/** Day 20: the race track. The maze holds a single corridor from the
    start to the end; a cheat lets the racer pass through walls for up
    to `l` steps, going from one track position straight to a later one
    at most `l` steps away (Manhattan distance), and saves the track
    length it skips minus the steps it takes. `solve` builds the
    histogram of savings over every cheat; the parts count the cheats
    that save at least 100 steps, with `l` 2 and 20. */
module Day20 {
  import opened Common
  import opened Maze

  // ----- walking the corridor -----

  /** The grid keeps the shape `from_bytes` gave it: `rows * cols` cells
      fit in the cell vector, so every position inside the rectangle can
      be indexed. */
  predicate Fits(g: Grid)
  {
    g.cols > 0 && g.rows * g.cols <= |g.cells|
  }

  predicate Inside(g: Grid, p: Pos)
  {
    InBounds(p, g.rows, g.cols)
  }

  lemma InsideIndexed(g: Grid, p: Pos)
    requires Fits(g) && Inside(g, p)
    ensures Get(g, p).Some?
  {
    RowIndexBound(p.0, p.1, g.rows, g.cols);
  }

  /** A position inside the rectangle that holds an empty cell. */
  predicate Open(g: Grid, p: Pos)
  {
    Inside(g, p) && Get(g, p) == Some(Empty)
  }

  /** The four neighbours in the order `next` tries them: up, down, left,
      right. */
  function Neighbours(pos: Pos): (r: seq<Pos>)
    ensures forall q :: q in r <==> Manhattan(pos, q) == 1
  {
    [(pos.0 - 1, pos.1), (pos.0 + 1, pos.1), (pos.0, pos.1 - 1), (pos.0, pos.1 + 1)]
  }

  function KeepOpen(g: Grid, qs: seq<Pos>): (r: seq<Pos>)
    ensures forall q :: q in r <==> q in qs && Open(g, q)
  {
    if |qs| == 0 then []
    else (if Open(g, qs[0]) then [qs[0]] else []) + KeepOpen(g, qs[1..])
  }

  /** `Grid::next`: the neighbours inside the rectangle on empty cells.
      On a grid that fits, testing a cell inside the rectangle never
      indexes past the cells. */
  function Next(g: Grid, pos: Pos): (r: seq<Pos>)
    requires Fits(g)
    ensures forall q :: q in r <==> Manhattan(pos, q) == 1 && Open(g, q)
  {
    KeepOpen(g, Neighbours(pos))
  }

  /** Neighbouring positions have different row-major indices, whatever
      the column of the first. */
  lemma NeighbourIndex(g: Grid, p: Pos, q: Pos)
    requires g.cols > 0 && Manhattan(p, q) == 1
    ensures Index(g, p) != Index(g, q)
  {
    if p.0 == q.0 {
    } else if p.0 == q.0 + 1 {
      assert Index(g, p) == Index(g, q) + g.cols;
    } else {
      assert q.0 == p.0 + 1;
      assert Index(g, q) == Index(g, p) + g.cols;
    }
  }

  /** `set_wall`. */
  function Walled(g: Grid, ix: nat): (r: Grid)
    requires ix < |g.cells|
    ensures |r.cells| == |g.cells| && r.cells[ix] == Wall
    ensures forall k :: 0 <= k < |g.cells| && k != ix ==> r.cells[k] == g.cells[k]
  {
    g.(cells := g.cells[ix := Wall])
  }

  /** Each position is a neighbour of the one before. */
  predicate Adjacent(path: seq<Pos>)
  {
    forall i, j :: 0 <= i < |path| && j == i + 1 && j < |path| ==> Manhattan(path[i], path[j]) == 1
  }

  predicate Distinct<T(==)>(s: seq<T>)
  {
    forall i, j :: 0 <= i < j < |s| ==> s[i] != s[j]
  }

  /** The cells still empty, and one more while the racer stands on a
      cell that is not: each round of the trace uses one up. */
  function Fuel(g: Grid, pos: Pos): nat
  {
    multiset(g.cells)[Empty] + (if Get(g, pos) == Some(Empty) then 0 else 1)
  }

  /** One round of `trace_path` away from the end: the only way on, and
      the grid with the cell left behind walled off; `None` where the
      assertion fails or the wall cannot be set. The walled grid has one
      open cell fewer, the one the racer leaves. */
  function Advance(g: Grid, pos: Pos): (r: Option<(Grid, Pos)>)
    requires Fits(g)
    ensures r.Some? <==> |Next(g, pos)| == 1 && Get(g, pos).Some?
    ensures r.Some? ==> r.value.1 == Next(g, pos)[0] && Manhattan(pos, r.value.1) == 1
    ensures r.Some? ==> Fits(r.value.0) && Open(r.value.0, r.value.1) && Fuel(r.value.0, r.value.1) < Fuel(g, pos)
    ensures r.Some? ==> forall q :: Open(r.value.0, q) ==> Open(g, q) && q != pos
    ensures r.Some? && Inside(g, pos) ==> forall q :: Open(g, q) && q != pos ==> Open(r.value.0, q)
  {
    var next := Next(g, pos);
    if |next| != 1 || Get(g, pos).None? then None
    else
      assert next[0] in next;
      WalledFuel(g, pos, next[0]);
      WalledOpen(g, pos);
      Some((Walled(g, Index(g, pos)), next[0]))
  }

  /** Walling off the cell left leaves the next one open and uses up one
      unit of fuel. */
  lemma WalledFuel(g: Grid, pos: Pos, next: Pos)
    requires Fits(g) && Get(g, pos).Some? && Manhattan(pos, next) == 1 && Open(g, next)
    ensures var g' := Walled(g, Index(g, pos));
      Fits(g') && Open(g', next) && Fuel(g', next) < Fuel(g, pos)
  {
    var ix := Index(g, pos);
    NeighbourIndex(g, pos, next);
    InsideIndexed(g, next);
    assert g.cells == g.cells[ix := g.cells[ix]];
  }

  /** The cells open after walling off `pos` are those open before, but
      `pos`. */
  lemma WalledOpen(g: Grid, pos: Pos)
    requires Fits(g) && Get(g, pos).Some?
    ensures forall q :: Open(Walled(g, Index(g, pos)), q) ==> Open(g, q) && q != pos
    ensures Inside(g, pos) ==> forall q :: Open(g, q) && q != pos ==> Open(Walled(g, Index(g, pos)), q)
  {
    var ix := Index(g, pos);
    forall q | Inside(g, pos) && Open(g, q) && q != pos
      ensures Index(g, q) != ix
    {
      SameIndexSame(g, pos, q);
    }
  }

  /** The loop of `trace_path` from `pos`: stop on the end, otherwise
      advance and go on. Every cell but the first is open, each step goes
      to a neighbour and no position comes twice, because the cells
      walked are walled off behind the racer. Each round walls off an
      empty cell, so the walk is finite. */
  function Trace(g: Grid, pos: Pos): (r: Option<seq<Pos>>)
    requires Fits(g)
    ensures r.Some? ==> |r.value| >= 1 && r.value[0] == pos && r.value[|r.value| - 1] == g.end
    ensures r.Some? ==> Adjacent(r.value) && Distinct(r.value)
    ensures r.Some? ==> forall i :: 1 <= i < |r.value| ==> Open(g, r.value[i])
    decreases Fuel(g, pos)
  {
    if pos == g.end then Some([pos])
    else
      match Advance(g, pos)
      case None => None
      case Some((g', next)) =>
        match Trace(g', next)
        case None => None
        case Some(rest) =>
          Extend(g, pos, g', next, rest);
          Some([pos] + rest)
  }

  /** A step back from a track: the position left, walled off behind,
      is a neighbour of the track's first position and on none of it. */
  lemma Extend(g: Grid, pos: Pos, g': Grid, next: Pos, rest: seq<Pos>)
    requires Fits(g) && Advance(g, pos) == Some((g', next))
    requires |rest| >= 1 && rest[0] == next && Adjacent(rest) && Distinct(rest)
    requires forall i :: 1 <= i < |rest| ==> Open(g', rest[i])
    ensures Adjacent([pos] + rest) && Distinct([pos] + rest)
    ensures forall i :: 1 <= i < |rest| + 1 ==> Open(g, ([pos] + rest)[i])
  {
    assert forall k :: 0 <= k < |rest| ==> Open(g', rest[k]);
    PrependOpen(g, g', pos, rest);
    PrependDistinct(pos, rest);
    PrependAdjacent(pos, rest);
  }

  /** Cells open after walling off `pos` were open before and are not
      `pos`. */
  lemma PrependOpen(g: Grid, g': Grid, pos: Pos, rest: seq<Pos>)
    requires forall q :: Open(g', q) ==> Open(g, q) && q != pos
    requires forall k :: 0 <= k < |rest| ==> Open(g', rest[k])
    ensures pos !in rest
    ensures forall i :: 1 <= i < |rest| + 1 ==> Open(g, ([pos] + rest)[i])
  {
    var path := [pos] + rest;
    forall i | 1 <= i < |path|
      ensures Open(g, path[i])
    {
      assert path[i] == rest[i - 1];
    }
  }

  /** A new first element not in a distinct sequence keeps it distinct. */
  lemma PrependDistinct(pos: Pos, rest: seq<Pos>)
    requires pos !in rest && Distinct(rest)
    ensures Distinct([pos] + rest)
  {
    var path := [pos] + rest;
    forall i, j | 0 <= i < j < |path|
      ensures path[i] != path[j]
    {
      assert path[j] == rest[j - 1];
      if i > 0 {
        assert path[i] == rest[i - 1];
      }
    }
  }

  /** A new first element next to the old first keeps the steps
      adjacent. */
  lemma PrependAdjacent(pos: Pos, rest: seq<Pos>)
    requires |rest| >= 1 && Manhattan(pos, rest[0]) == 1 && Adjacent(rest)
    ensures Adjacent([pos] + rest)
  {
    var path := [pos] + rest;
    forall i, j | 0 <= i < |path| && j == i + 1 && j < |path|
      ensures Manhattan(path[i], path[j]) == 1
    {
      if i > 0 {
        assert path[i] == rest[i - 1] && path[j] == rest[i];
      }
    }
  }

  /** The path `trace_path` returns, from the start. */
  function TracePath(g: Grid): Option<seq<Pos>>
    requires Fits(g)
  {
    Trace(g, g.start)
  }

  /** The track is the corridor: from a position inside the rectangle,
      every open neighbour of a track position other than the last is
      either the next position or one already passed. */
  lemma {:induction false} TraceIsCorridor(g: Grid, pos: Pos, path: seq<Pos>, i: nat, q: Pos)
    requires Fits(g) && Inside(g, pos) && Trace(g, pos) == Some(path)
    requires i < |path| - 1 && Manhattan(path[i], q) == 1 && Open(g, q)
    ensures q == path[i + 1] || q in path[..i]
    decreases Fuel(g, pos)
  {
    if i == 0 {
      OnlyWayOn(g, pos, path, q);
    } else if q == pos {
      assert path[..i][0] == q;
    } else {
      TraceStep(g, pos);
      var (g', next) := Advance(g, pos).value;
      var rest := Trace(g', next).value;
      LaterOnTrack(path, rest, pos, i);
      TraceIsCorridor(g', next, rest, i - 1, q);
    }
  }

  /** The first step of the track is the only open neighbour. */
  lemma OnlyWayOn(g: Grid, pos: Pos, path: seq<Pos>, q: Pos)
    requires Fits(g) && Trace(g, pos) == Some(path) && |path| > 1
    requires Manhattan(pos, q) == 1 && Open(g, q)
    ensures q == path[1]
  {
    TraceStep(g, pos);
    var ways := Next(g, pos);
    assert q in ways;
    OnlyMember(ways, q);
    var (g', next) := Advance(g, pos).value;
    var rest := Trace(g', next).value;
    assert path[1] == rest[0] == next;
  }

  lemma OnlyMember<T>(s: seq<T>, x: T)
    requires |s| == 1 && x in s
    ensures x == s[0]
  {
  }

  /** The trace unfolded once. */
  lemma TraceStep(g: Grid, pos: Pos)
    requires Fits(g) && Trace(g, pos).Some?
    ensures pos == g.end ==> Trace(g, pos).value == [pos]
    ensures pos != g.end ==> (Advance(g, pos).Some? &&
      var (g', next) := Advance(g, pos).value;
      Trace(g', next).Some? && Trace(g, pos).value == [pos] + Trace(g', next).value)
  {
  }

  /** Index `i` of the track is index `i - 1` of the rest of it. */
  lemma LaterOnTrack(path: seq<Pos>, rest: seq<Pos>, pos: Pos, i: nat)
    requires path == [pos] + rest && 1 <= i < |path| - 1
    ensures path[i] == rest[i - 1] && path[i + 1] == rest[i]
    ensures path[..i] == [pos] + rest[..i - 1]
  {
  }

  /** Inside the rectangle, the row-major index names one position. */
  lemma SameIndexSame(g: Grid, p: Pos, q: Pos)
    requires g.cols > 0 && Inside(g, p) && Inside(g, q) && p != q
    ensures Index(g, p) != Index(g, q)
  {
    if p.0 < q.0 {
      RowsApart(g, p, q);
    } else if q.0 < p.0 {
      RowsApart(g, q, p);
    }
  }

  lemma RowsApart(g: Grid, p: Pos, q: Pos)
    requires g.cols > 0 && 0 <= p.1 < g.cols && 0 <= q.1 && p.0 < q.0
    ensures Index(g, p) < Index(g, q)
  {
    MulLe(p.0 + 1, q.0, g.cols);
    assert (p.0 + 1) * g.cols == p.0 * g.cols + g.cols;
  }

  // ----- counting the cheats -----

  /** `distance_from_start`: each track position mapped to its index,
      the later index winning where a position repeats. */
  function Distances(path: seq<Pos>, n: nat): (m: map<Pos, nat>)
    requires n <= |path|
    ensures forall i :: 0 <= i < n ==> path[i] in m
    ensures forall p :: p in m ==> m[p] < n && path[m[p]] == p
  {
    if n == 0 then map[]
    else Distances(path, n - 1)[path[n - 1] := n - 1]
  }

  /** On a track without repeats the map gives each position's own
      index. */
  lemma DistancesExact(path: seq<Pos>, i: nat)
    requires Distinct(path) && i < |path|
    ensures Distances(path, |path|)[path[i]] == i
  {
  }

  /** One row of the diamond the inner loops cover: columns `lo` to `hi`
      of row offset `a`. */
  function Row(a: int, lo: int, hi: int): (r: seq<Pos>)
    ensures forall o :: o in r <==> o.0 == a && lo <= o.1 <= hi
    ensures Distinct(r)
    decreases hi - lo
  {
    if lo > hi then [] else [(a, lo)] + Row(a, lo + 1, hi)
  }

  /** The offsets the two inner loops visit, row offsets `a` to `l`, each
      row as wide as the distance left allows: exactly the offsets within
      Manhattan distance `l`, each once. */
  function Diamond(l: nat, a: int): (r: seq<Pos>)
    ensures forall o :: o in r <==> a <= o.0 && Abs(o.0) + Abs(o.1) <= l
    ensures Distinct(r)
    decreases l - a
  {
    if a > l then []
    else
      var row, more := Row(a, -(l - Abs(a)), l - Abs(a)), Diamond(l, a + 1);
      DistinctAppend(row, more);
      row + more
  }

  /** The offsets from the first row offset, `-l`. */
  function Offsets(l: nat): (r: seq<Pos>)
    ensures forall o :: o in r <==> Abs(o.0) + Abs(o.1) <= l
    ensures Distinct(r)
  {
    Diamond(l, -(l as int))
  }

  lemma DistinctAppend<T>(x: seq<T>, y: seq<T>)
    requires Distinct(x) && Distinct(y) && forall v :: v in x ==> v !in y
    ensures Distinct(x + y)
  {
    forall i, j | 0 <= i < j < |x + y|
      ensures (x + y)[i] != (x + y)[j]
    {
      if i < |x| && j >= |x| {
        assert (x + y)[i] in x && (x + y)[j] in y;
      }
    }
  }

  function Shift(p: Pos, o: Pos): Pos
  {
    (p.0 + o.0, p.1 + o.1)
  }

  /** The cheat the loops count for offset `o` from track index `d0`: it
      lands on the track at index `d1`, later than `d0`, and the steps it
      takes are fewer than the track length it skips. */
  predicate Lands(path: seq<Pos>, dist: map<Pos, nat>, d0: nat, o: Pos, d1: nat)
    requires d0 < |path|
  {
    o != (0, 0) && Shift(path[d0], o) in dist && dist[Shift(path[d0], o)] == d1 &&
    d1 > d0 && d0 + Abs(o.0) + Abs(o.1) < d1
  }

  /** The savings the inner loops record for track index `d0`, in the
      order they visit `offsets`. */
  function Saved(path: seq<Pos>, dist: map<Pos, nat>, d0: nat, offsets: seq<Pos>): (r: seq<nat>)
    requires d0 < |path|
    ensures forall k :: 0 <= k < |r| ==> r[k] > 0
  {
    if |offsets| == 0 then []
    else
      var o := offsets[0];
      var q := Shift(path[d0], o);
      var here :=
        if o == (0, 0) || q !in dist || dist[q] <= d0 then []
        else
          var cheat := Abs(o.0) + Abs(o.1);
          if d0 + cheat < dist[q] then [dist[q] - d0 - cheat] else [];
      here + Saved(path, dist, d0, offsets[1..])
  }

  /** The landing indices of those cheats, in the same order. */
  ghost function Landings(path: seq<Pos>, dist: map<Pos, nat>, d0: nat, offsets: seq<Pos>): seq<nat>
    requires d0 < |path|
  {
    if |offsets| == 0 then []
    else
      var q := Shift(path[d0], offsets[0]);
      var here := if q in dist && Lands(path, dist, d0, offsets[0], dist[q]) then [dist[q]] else [];
      here + Landings(path, dist, d0, offsets[1..])
  }

  lemma {:induction false} LandingFrom(path: seq<Pos>, dist: map<Pos, nat>, d0: nat, offsets: seq<Pos>, o: Pos, d1: nat)
    requires d0 < |path| && o in offsets && Lands(path, dist, d0, o, d1)
    ensures d1 in Landings(path, dist, d0, offsets)
    decreases |offsets|
  {
    if o != offsets[0] {
      LandingFrom(path, dist, d0, offsets[1..], o, d1);
    }
  }

  lemma {:induction false} LandingOrigin(path: seq<Pos>, dist: map<Pos, nat>, d0: nat, offsets: seq<Pos>, d1: nat)
    requires d0 < |path| && d1 in Landings(path, dist, d0, offsets)
    ensures exists o :: o in offsets && Lands(path, dist, d0, o, d1)
    decreases |offsets|
  {
    var q := Shift(path[d0], offsets[0]);
    if !(q in dist && Lands(path, dist, d0, offsets[0], dist[q]) && d1 == dist[q]) {
      LandingOrigin(path, dist, d0, offsets[1..], d1);
      var o :| o in offsets[1..] && Lands(path, dist, d0, o, d1);
      assert o in offsets;
    }
  }

  /** `dist` maps positions to the track indices where they stand. */
  predicate Indexes(path: seq<Pos>, dist: map<Pos, nat>)
  {
    forall p :: p in dist ==> dist[p] < |path| && path[dist[p]] == p
  }

  /** What a cheat from `d0` to `d1` saves: the skipped track length less
      the steps taken (nothing for an index past the track). */
  function Saving(path: seq<Pos>, d0: nat, d1: nat): int
  {
    if d0 < |path| && d1 < |path| then d1 - d0 - Manhattan(path[d0], path[d1]) else 0
  }

  function SavingsOf(path: seq<Pos>, d0: nat, ends: seq<nat>): (r: seq<int>)
    ensures |r| == |ends|
  {
    if |ends| == 0 then [] else [Saving(path, d0, ends[0])] + SavingsOf(path, d0, ends[1..])
  }

  /** The recorded savings are the savings of the landings. */
  lemma {:induction false} SavedAreSavings(path: seq<Pos>, dist: map<Pos, nat>, d0: nat, offsets: seq<Pos>)
    requires d0 < |path| && Indexes(path, dist)
    ensures Saved(path, dist, d0, offsets) == SavingsOf(path, d0, Landings(path, dist, d0, offsets))
    decreases |offsets|
  {
    if |offsets| > 0 {
      var tail := offsets[1..];
      SavedAreSavings(path, dist, d0, tail);
      var o := offsets[0];
      var q := Shift(path[d0], o);
      var ls := Landings(path, dist, d0, offsets);
      if q in dist && Lands(path, dist, d0, o, dist[q]) {
        var d1 := dist[q];
        assert path[d1] == q;
        var saved := d1 - d0 - (Abs(o.0) + Abs(o.1));
        assert Saving(path, d0, d1) == saved;
        assert ls == [d1] + Landings(path, dist, d0, tail);
        assert Saved(path, dist, d0, offsets) == [saved] + Saved(path, dist, d0, tail);
        assert SavingsOf(path, d0, ls) == [saved] + SavingsOf(path, d0, Landings(path, dist, d0, tail));
      } else {
        assert ls == Landings(path, dist, d0, tail);
        assert Saved(path, dist, d0, offsets) == Saved(path, dist, d0, tail);
      }
    }
  }

  /** Different offsets land on different track indices. */
  lemma {:induction false} LandingsDistinct(path: seq<Pos>, dist: map<Pos, nat>, d0: nat, offsets: seq<Pos>)
    requires d0 < |path| && Indexes(path, dist) && Distinct(offsets)
    ensures Distinct(Landings(path, dist, d0, offsets))
    decreases |offsets|
  {
    if |offsets| > 0 {
      var tail := offsets[1..];
      LandingsDistinct(path, dist, d0, tail);
      var o := offsets[0];
      var q := Shift(path[d0], o);
      var rest := Landings(path, dist, d0, tail);
      if q in dist && Lands(path, dist, d0, o, dist[q]) {
        forall d1 | d1 in rest
          ensures d1 != dist[q]
        {
          LandingOrigin(path, dist, d0, tail, d1);
          var o' :| o' in tail && Lands(path, dist, d0, o', d1);
          assert o' != o by {
            var k :| 1 <= k < |offsets| && offsets[k] == o';
          }
          assert path[d1] == Shift(path[d0], o');
        }
        DistinctAppend([dist[q]], rest);
      }
    }
  }

  // ----- the reference count -----

  /** A cheat from track index `d0` to `d1`: later on the track, within
      `l` steps, and saving something. */
  predicate Cheat(path: seq<Pos>, l: nat, d0: nat, d1: nat)
  {
    d0 < d1 < |path| && Manhattan(path[d0], path[d1]) <= l && d0 + Manhattan(path[d0], path[d1]) < d1
  }

  /** The cheats from `d0` to an index from `d1` on, by increasing end. */
  function CheatEnds(path: seq<Pos>, l: nat, d0: nat, d1: nat): (r: seq<nat>)
    ensures forall e :: e in r <==> d1 <= e && Cheat(path, l, d0, e)
    ensures forall k :: 0 <= k < |r| ==> d1 <= r[k] < |path|
    ensures Distinct(r)
    decreases |path| - d1
  {
    if d1 >= |path| then []
    else
      var rest := CheatEnds(path, l, d0, d1 + 1);
      (if Cheat(path, l, d0, d1) then [d1] else []) + rest
  }

  /** The savings of every cheat on the track, start by start. */
  function AllCheats(path: seq<Pos>, l: nat, d0: nat): seq<int>
    decreases |path| - d0
  {
    if d0 >= |path| then []
    else SavingsOf(path, d0, CheatEnds(path, l, d0, d0 + 1)) + AllCheats(path, l, d0 + 1)
  }

  /** Every cheat saves at least one step. */
  lemma {:induction false} CheatsSave(path: seq<Pos>, l: nat, d0: nat)
    ensures forall x :: x in AllCheats(path, l, d0) ==> x > 0
    decreases |path| - d0
  {
    if d0 < |path| {
      CheatsSave(path, l, d0 + 1);
      SavingsPositive(path, l, d0, CheatEnds(path, l, d0, d0 + 1));
    }
  }

  lemma {:induction false} SavingsPositive(path: seq<Pos>, l: nat, d0: nat, ends: seq<nat>)
    requires forall k :: 0 <= k < |ends| ==> Cheat(path, l, d0, ends[k])
    ensures forall x :: x in SavingsOf(path, d0, ends) ==> x > 0
    decreases |ends|
  {
    if |ends| > 0 {
      SavingsPositive(path, l, d0, ends[1..]);
      assert SavingsOf(path, d0, ends) == [Saving(path, d0, ends[0])] + SavingsOf(path, d0, ends[1..]);
    }
  }

  /** With no repeats, how often a saving occurs among the savings of
      some ends depends only on which ends they are. */
  lemma {:induction false} SavingsCount(path: seq<Pos>, d0: nat, ends: seq<nat>, s: int)
    requires Distinct(ends)
    ensures multiset(SavingsOf(path, d0, ends))[s] == |set e | e in ends && Saving(path, d0, e) == s|
    decreases |ends|
  {
    if |ends| > 0 {
      var e0 := ends[0];
      SavingsCount(path, d0, ends[1..], s);
      var all := set e | e in ends && Saving(path, d0, e) == s;
      var more := set e | e in ends[1..] && Saving(path, d0, e) == s;
      assert forall e :: e in ends <==> e == e0 || e in ends[1..];
      assert e0 !in ends[1..];
      if Saving(path, d0, e0) == s {
        assert all == more + {e0};
      } else {
        assert all == more;
      }
      assert SavingsOf(path, d0, ends) == [Saving(path, d0, e0)] + SavingsOf(path, d0, ends[1..]);
    }
  }

  /** Two lists of ends without repeats and with the same members give
      the same savings, in some order. */
  lemma SameEndsSameSavings(path: seq<Pos>, d0: nat, a: seq<nat>, b: seq<nat>)
    requires Distinct(a) && Distinct(b) && forall e :: e in a <==> e in b
    ensures multiset(SavingsOf(path, d0, a)) == multiset(SavingsOf(path, d0, b))
  {
    forall s
      ensures multiset(SavingsOf(path, d0, a))[s] == multiset(SavingsOf(path, d0, b))[s]
    {
      SavingsCount(path, d0, a, s);
      SavingsCount(path, d0, b, s);
      assert (set e | e in a && Saving(path, d0, e) == s) == (set e | e in b && Saving(path, d0, e) == s);
    }
  }

  /** Every cheat from `d0` is found by the offset that leads to its end. */
  lemma CheatLands(path: seq<Pos>, dist: map<Pos, nat>, l: nat, d0: nat, e: nat)
    requires Distinct(path) && Indexes(path, dist) && (forall i :: 0 <= i < |path| ==> path[i] in dist)
    requires d0 < |path| && Cheat(path, l, d0, e)
    ensures e in Landings(path, dist, d0, Offsets(l))
  {
    var o := (path[e].0 - path[d0].0, path[e].1 - path[d0].1);
    assert Shift(path[d0], o) == path[e];
    assert path[e] in dist;
    assert dist[path[e]] == e;
    assert o in Offsets(l);
    LandingFrom(path, dist, d0, Offsets(l), o, e);
  }

  /** Every landing is a cheat from `d0`. */
  lemma LandingIsCheat(path: seq<Pos>, dist: map<Pos, nat>, l: nat, d0: nat, e: nat)
    requires d0 < |path| && Indexes(path, dist) && e in Landings(path, dist, d0, Offsets(l))
    ensures Cheat(path, l, d0, e)
  {
    LandingOrigin(path, dist, d0, Offsets(l), e);
    var o :| o in Offsets(l) && Lands(path, dist, d0, o, e);
    assert path[e] == Shift(path[d0], o);
  }

  /** The loops record, for track index `d0`, exactly the savings of the
      cheats from it, each once. */
  lemma LoopsFindCheats(path: seq<Pos>, dist: map<Pos, nat>, l: nat, d0: nat)
    requires Distinct(path) && d0 < |path| && dist == Distances(path, |path|)
    ensures multiset(Saved(path, dist, d0, Offsets(l))) ==
      multiset(SavingsOf(path, d0, CheatEnds(path, l, d0, d0 + 1)))
  {
    var found := Landings(path, dist, d0, Offsets(l));
    var ends := CheatEnds(path, l, d0, d0 + 1);
    SavedAreSavings(path, dist, d0, Offsets(l));
    LandingsDistinct(path, dist, d0, Offsets(l));
    forall e
      ensures e in found <==> e in ends
    {
      if e in ends {
        CheatLands(path, dist, l, d0, e);
      }
      if e in found {
        LandingIsCheat(path, dist, l, d0, e);
      }
    }
    SameEndsSameSavings(path, d0, found, ends);
  }

  /** The savings of the whole outer loop, track index by track index. */
  function AllSaved(path: seq<Pos>, dist: map<Pos, nat>, l: nat, d0: nat): (r: seq<nat>)
    ensures forall k :: 0 <= k < |r| ==> r[k] > 0
    decreases |path| - d0
  {
    if d0 >= |path| then []
    else Saved(path, dist, d0, Offsets(l)) + AllSaved(path, dist, l, d0 + 1)
  }

  /** The outer loop records the savings of every cheat, each once. */
  lemma {:induction false} AllSavedAreCheats(path: seq<Pos>, l: nat, d0: nat)
    requires Distinct(path)
    ensures multiset(AllSaved(path, Distances(path, |path|), l, d0)) == multiset(AllCheats(path, l, d0))
    decreases |path| - d0
  {
    if d0 < |path| {
      AllSavedAreCheats(path, l, d0 + 1);
      LoopsFindCheats(path, Distances(path, |path|), l, d0);
    }
  }

  // ----- the histogram -----

  /** `result.entry(saved).and_modify(|c| *c += 1).or_insert(1)` over the
      savings in order. */
  function Tally(xs: seq<nat>): (h: map<nat, nat>)
    ensures forall s :: s in h <==> s in xs
    ensures forall s :: s in h ==> h[s] == multiset(xs)[s]
  {
    if |xs| == 0 then map[]
    else
      var init, last := xs[..|xs| - 1], xs[|xs| - 1];
      assert xs == init + [last];
      var h := Tally(init);
      h[last := (if last in h then h[last] else 0) + 1]
  }

  /** The track `solve` walks: the maze read and the corridor traced;
      `None` where either panics. */
  function Track(input: seq<char>): (r: Option<seq<Pos>>)
    ensures r.Some? ==> Distinct(r.value) && Adjacent(r.value) && |r.value| >= 1
  {
    match FromBytes(input)
    case None => None
    case Some(g) =>
      assert g.rows * g.cols <= |g.cells|;
      TracePath(g)
  }

  /** `solve`: the histogram of savings over every cheat of length at
      most `l`. */
  function Solve(input: seq<char>, l: nat): (r: Option<map<nat, nat>>)
    ensures r.Some? <==> Track(input).Some?
    ensures r.Some? ==> forall s :: s in r.value ==> s > 0
  {
    match Track(input)
    case None => None
    case Some(path) => Some(Tally(AllSaved(path, Distances(path, |path|), l, 0)))
  }

  /** Each saving in the histogram counts exactly the cheats that save
      that much, and a saving no cheat gives is absent. */
  lemma SolveCounts(input: seq<char>, l: nat, s: nat)
    requires Track(input).Some?
    ensures var path, h := Track(input).value, Solve(input, l).value;
      (s in h <==> multiset(AllCheats(path, l, 0))[s] > 0) &&
      (s in h ==> h[s] == multiset(AllCheats(path, l, 0))[s])
  {
    var path := Track(input).value;
    AllSavedAreCheats(path, l, 0);
  }

  // ----- the parts -----

  /** How many of `xs` are at least `t`. */
  function AtLeast(xs: seq<int>, t: int): nat
  {
    if |xs| == 0 then 0 else (if xs[0] >= t then 1 else 0) + AtLeast(xs[1..], t)
  }

  /** How many of `xs` are at least `t` and among `keys`. */
  function AtLeastIn(xs: seq<int>, t: int, keys: set<nat>): nat
  {
    if |xs| == 0 then 0 else (if xs[0] >= t && xs[0] in keys then 1 else 0) + AtLeastIn(xs[1..], t, keys)
  }

  lemma {:induction false} AtLeastInAdd(xs: seq<int>, t: int, keys: set<nat>, k: nat)
    requires k !in keys
    ensures AtLeastIn(xs, t, keys + {k}) == AtLeastIn(xs, t, keys) + (if k >= t then multiset(xs)[k] else 0)
    decreases |xs|
  {
    if |xs| > 0 {
      AtLeastInAdd(xs[1..], t, keys, k);
      assert xs == [xs[0]] + xs[1..];
    }
  }

  lemma {:induction false} AtLeastInNone(xs: seq<int>, t: int)
    ensures AtLeastIn(xs, t, {}) == 0
    decreases |xs|
  {
    if |xs| > 0 {
      AtLeastInNone(xs[1..], t);
    }
  }

  lemma {:induction false} AtLeastInAll(xs: seq<int>, t: int, keys: set<nat>)
    requires forall x :: x in xs ==> x in keys
    ensures AtLeastIn(xs, t, keys) == AtLeast(xs, t)
    decreases |xs|
  {
    if |xs| > 0 {
      assert xs[0] in xs;
      assert forall x :: x in xs[1..] ==> x in xs;
      AtLeastInAll(xs[1..], t, keys);
    }
  }

  /** The count above a threshold depends only on the multiset. */
  lemma {:induction false} AtLeastMultiset(xs: seq<int>, ys: seq<int>, t: int)
    requires multiset(xs) == multiset(ys)
    ensures AtLeast(xs, t) == AtLeast(ys, t)
    decreases |xs|
  {
    if |xs| > 0 {
      var k := FindIn(ys, xs[0]);
      var others := ys[..k] + ys[k + 1..];
      DropMatching(xs, ys, k, t);
      AtLeastMultiset(xs[1..], others, t);
    } else {
      assert |ys| == |multiset(ys)| == 0;
    }
  }

  /** Dropping the same value from two sequences with the same elements
      leaves two with the same elements, and drops the same count. */
  lemma DropMatching(xs: seq<int>, ys: seq<int>, k: nat, t: int)
    requires multiset(xs) == multiset(ys) && |xs| > 0 && k < |ys| && ys[k] == xs[0]
    ensures multiset(xs[1..]) == multiset(ys[..k] + ys[k + 1..])
    ensures AtLeast(ys, t) - AtLeast(ys[..k] + ys[k + 1..], t) == AtLeast(xs, t) - AtLeast(xs[1..], t)
  {
    DropOne(ys, k, t);
    DropOne(xs, 0, t);
    assert xs[..0] + xs[1..] == xs[1..];
  }

  /** A position holding `x` in a sequence that holds it. */
  lemma FindIn(ys: seq<int>, x: int) returns (k: nat)
    requires x in multiset(ys)
    ensures k < |ys| && ys[k] == x
  {
    assert x in ys;
    k :| 0 <= k < |ys| && ys[k] == x;
  }

  /** Taking one element out of a sequence. */
  lemma DropOne(ys: seq<int>, k: nat, t: int)
    requires k < |ys|
    ensures multiset(ys[..k] + ys[k + 1..]) == multiset(ys) - multiset{ys[k]}
    ensures AtLeast(ys, t) == (if ys[k] >= t then 1 else 0) + AtLeast(ys[..k] + ys[k + 1..], t)
  {
    var a, b := ys[..k], ys[k + 1..];
    assert ys == a + ([ys[k]] + b);
    DropOneMultiset(a, ys[k], b);
    AtLeastAppend(a, [ys[k]] + b, t);
    AtLeastAppend(a, b, t);
    assert ([ys[k]] + b)[1..] == b;
  }

  lemma DropOneMultiset(a: seq<int>, x: int, b: seq<int>)
    ensures multiset(a + b) == multiset(a + ([x] + b)) - multiset{x}
  {
  }

  lemma {:induction false} AtLeastAppend(xs: seq<int>, ys: seq<int>, t: int)
    ensures AtLeast(xs + ys, t) == AtLeast(xs, t) + AtLeast(ys, t)
    decreases |xs|
  {
    if |xs| > 0 {
      AtLeastAppend(xs[1..], ys, t);
      assert (xs + ys)[1..] == xs[1..] + ys;
    } else {
      assert xs + ys == ys;
    }
  }

  /** The sum of the histogram's counts for savings of at least `t`,
      taking the keys in any order. */
  method CountFrom(h: map<nat, nat>, ghost xs: seq<nat>, t: nat) returns (r: nat)
    requires h == Tally(xs)
    ensures r == AtLeast(xs, t)
  {
    r := 0;
    var todo := h.Keys;
    ghost var done: set<nat> := {};
    AtLeastInNone(xs, t);
    while todo != {}
      invariant todo <= h.Keys && done == h.Keys - todo
      invariant r == AtLeastIn(xs, t, done)
      decreases todo
    {
      var k :| k in todo;
      r := CountKey(h, xs, t, done, k, r);
      todo := todo - {k};
      done := done + {k};
    }
    assert done == h.Keys;
    AtLeastInAll(xs, t, done);
  }

  /** Adding one histogram key to the keys counted so far adds its count
      when the key is at least `t`. */
  method CountKey(h: map<nat, nat>, ghost xs: seq<nat>, t: nat, ghost done: set<nat>, k: nat, r: nat) returns (r': nat)
    requires h == Tally(xs) && k in h && k !in done && r == AtLeastIn(xs, t, done)
    ensures r' == AtLeastIn(xs, t, done + {k})
  {
    AtLeastInAdd(xs, t, done, k);
    r' := if k >= t then r + h[k] else r;
  }

  /** A part: the number of cheats of length at most `l` that save at
      least 100 steps; `None` where the source panics. */
  method Part(input: seq<char>, l: nat) returns (r: Option<nat>)
    ensures r.Some? <==> Track(input).Some?
    ensures r.Some? ==> r.value == AtLeast(AllCheats(Track(input).value, l, 0), 100)
  {
    var h := Solve(input, l);
    if h.None? {
      return None;
    }
    var n := CountWorthwhile(Track(input).value, l, h.value);
    r := Some(n);
  }

  /** The histogram's count of savings of at least 100 is the number of
      cheats on the track that save that much. */
  method CountWorthwhile(path: seq<Pos>, l: nat, h: map<nat, nat>) returns (n: nat)
    requires Distinct(path) && h == Tally(AllSaved(path, Distances(path, |path|), l, 0))
    ensures n == AtLeast(AllCheats(path, l, 0), 100)
  {
    ghost var xs := AllSaved(path, Distances(path, |path|), l, 0);
    n := CountFrom(h, xs, 100);
    AllSavedAreCheats(path, l, 0);
    AtLeastMultiset(xs, AllCheats(path, l, 0), 100);
  }

  /** Part one: cheats of up to 2 steps. */
  method Part1(input: seq<char>) returns (r: Option<nat>)
    ensures r.Some? <==> Track(input).Some?
    ensures r.Some? ==> r.value == AtLeast(AllCheats(Track(input).value, 2, 0), 100)
  {
    r := Part(input, 2);
  }

  /** Part two: cheats of up to 20 steps. */
  method Part2(input: seq<char>) returns (r: Option<nat>)
    ensures r.Some? <==> Track(input).Some?
    ensures r.Some? ==> r.value == AtLeast(AllCheats(Track(input).value, 20, 0), 100)
  {
    r := Part(input, 20);
  }
}
