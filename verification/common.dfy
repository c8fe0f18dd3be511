/** Small shared vocabulary: an Option type for the puzzles' `Option`
    results and `unwrap` panics, sums over sequences and grid geometry. */
module Common {

  /** `None` stands for Rust's `None`, and also for a panic where a
      function is total in the model. */
  datatype Option<T> = None | Some(value: T)

  function Sum(s: seq<int>): int
  {
    if |s| == 0 then 0 else Sum(s[..|s| - 1]) + s[|s| - 1]
  }

  /** A prefix one longer is the shorter prefix and the next element. */
  lemma PrefixSnoc<T>(s: seq<T>, k: nat)
    requires k < |s|
    ensures s[..k + 1] == s[..k] + [s[k]]
  {
  }

  lemma {:induction false} SumAppend(a: seq<int>, b: seq<int>)
    ensures Sum(a + b) == Sum(a) + Sum(b)
    decreases |b|
  {
    if |b| == 0 {
      assert a + b == a;
    } else {
      assert (a + b)[..|a + b| - 1] == a + b[..|b| - 1];
      SumAppend(a, b[..|b| - 1]);
    }
  }

  lemma {:induction false} SumNonNegative(s: seq<int>)
    requires forall i :: 0 <= i < |s| ==> s[i] >= 0
    ensures Sum(s) >= 0
    decreases |s|
  {
    if |s| > 0 {
      SumNonNegative(s[..|s| - 1]);
    }
  }

  /** All the values, or `None` if any is missing: what `unwrap` on each
      element of a list gives, a panic standing for `None`. */
  function Collect<T>(os: seq<Option<T>>): (r: Option<seq<T>>)
    ensures r.Some? <==> forall k :: 0 <= k < |os| ==> os[k].Some?
    ensures r.Some? ==> |r.value| == |os| && forall k :: 0 <= k < |os| ==> r.value[k] == os[k].value
  {
    if |os| == 0 then Some([])
    else
      var front := Collect(os[..|os| - 1]);
      if front.None? then
        var k :| 0 <= k < |os| - 1 && os[..|os| - 1][k].None?;
        assert os[k].None?;
        None
      else if os[|os| - 1].None? then None
      else Some(front.value + [os[|os| - 1].value])
  }

  /** The product of two naturals, named so that a proof about a sum of
      products need not reason about multiplication. */
  function Times(a: nat, b: nat): nat
  {
    a * b
  }

  function Abs(x: int): (r: nat)
    ensures r == x || r == -x
  {
    if x < 0 then -x else x
  }

  /** Number of occurrences of `x` in `s`. */
  function Count<T(==)>(s: seq<T>, x: T): (n: nat)
    ensures n == multiset(s)[x]
  {
    if |s| == 0 then 0
    else
      assert s == s[..|s| - 1] + [s[|s| - 1]];
      Count(s[..|s| - 1], x) + (if s[|s| - 1] == x then 1 else 0)
  }

  /** The positions in `xs` of the elements that pass `p`. */
  function Hits<T>(xs: seq<T>, p: T -> bool): set<nat>
  {
    set i | 0 <= i < |xs| && p(xs[i])
  }

  /** One more element adds one hit exactly when it passes; there are
      never more hits than elements. */
  lemma {:induction false} HitsLast<T>(xs: seq<T>, p: T -> bool)
    requires |xs| > 0
    ensures |Hits(xs, p)| == |Hits(xs[..|xs| - 1], p)| + if p(xs[|xs| - 1]) then 1 else 0
  {
    var n := |xs| - 1;
    var before, after := Hits(xs[..n], p), Hits(xs, p);
    forall i ensures i in after <==> i in before || (i == n && p(xs[n])) {
      if 0 <= i < n {
        assert xs[..n][i] == xs[i];
      }
    }
    if p(xs[n]) {
      assert after == before + {n};
      assert n !in before;
    } else {
      assert after == before;
    }
  }

  lemma {:induction false} HitsBound<T>(xs: seq<T>, p: T -> bool)
    ensures |Hits(xs, p)| <= |xs|
    decreases |xs|
  {
    if |xs| > 0 {
      HitsBound(xs[..|xs| - 1], p);
      HitsLast(xs, p);
    } else {
      assert Hits(xs, p) == {};
    }
  }

  /** The elements of `xs` that pass `p`, in order. */
  function Filter<T>(xs: seq<T>, p: T -> bool): seq<T>
  {
    if |xs| == 0 then [] else (if p(xs[0]) then [xs[0]] else []) + Filter(xs[1..], p)
  }

  lemma {:induction false} FilterSnoc<T>(xs: seq<T>, x: T, p: T -> bool)
    ensures Filter(xs + [x], p) == Filter(xs, p) + (if p(x) then [x] else [])
    decreases |xs|
  {
    if |xs| == 0 {
      assert xs + [x] == [x];
      assert [x][1..] == [];
    } else {
      var head, tail := (if p(xs[0]) then [xs[0]] else []), (if p(x) then [x] else []);
      assert (xs + [x])[0] == xs[0];
      assert (xs + [x])[1..] == xs[1..] + [x];
      assert Filter(xs + [x], p) == head + Filter(xs[1..] + [x], p);
      FilterSnoc(xs[1..], x, p);
      assert head + (Filter(xs[1..], p) + tail) == (head + Filter(xs[1..], p)) + tail;
    }
  }

  predicate IsTrue(o: Option<bool>)
  {
    o == Some(true)
  }

  /** A loop that counts the verdicts that come out true, stopping at the
      first verdict that is missing (a panic). */
  function CountTrue(os: seq<Option<bool>>): (r: Option<nat>)
    ensures r.Some? <==> forall i :: 0 <= i < |os| ==> os[i].Some?
    ensures r.Some? ==> r.value == |Hits(os, IsTrue)|
  {
    if |os| == 0 then
      assert Hits(os, IsTrue) == {};
      Some(0)
    else
      var init := os[..|os| - 1];
      match CountTrue(init)
      case None =>
        assert exists i :: 0 <= i < |init| && init[i].None?;
        None
      case Some(n) =>
        if os[|os| - 1].None? then None
        else
          assert forall i :: 0 <= i < |init| ==> init[i] == os[i];
          HitsLast(os, IsTrue);
          Some(n + if os[|os| - 1].value then 1 else 0)
  }

  /** Grid positions, (row, column), signed as in the puzzles' `isize` pairs. */
  type Pos = (int, int)

  function Manhattan(p: Pos, q: Pos): nat
  {
    Abs(p.0 - q.0) + Abs(p.1 - q.1)
  }

  predicate InBounds(p: Pos, rows: int, cols: int)
  {
    0 <= p.0 < rows && 0 <= p.1 < cols
  }

  function GridPositions(rows: nat, cols: nat): set<Pos>
  {
    set r, c | 0 <= r < rows && 0 <= c < cols :: (r, c)
  }

  function RowPositions(r: int, cols: nat): set<Pos>
  {
    set c | 0 <= c < cols :: (r, c)
  }

  lemma {:induction false} RowPositionsCard(r: int, cols: nat)
    ensures |RowPositions(r, cols)| == cols
    decreases cols
  {
    if cols > 0 {
      RowPositionsCard(r, cols - 1);
      assert RowPositions(r, cols) == RowPositions(r, cols - 1) + {(r, cols - 1)};
    } else {
      assert RowPositions(r, cols) == {};
    }
  }

  /** A rows x cols grid has exactly rows * cols positions, so any set of
      in-bounds positions holds at most that many. */
  lemma {:induction false} GridPositionsCard(rows: nat, cols: nat)
    ensures |GridPositions(rows, cols)| == rows * cols
    decreases rows
  {
    if rows > 0 {
      GridPositionsCard(rows - 1, cols);
      RowPositionsCard(rows - 1, cols);
      GridSplit(rows, cols);
      assert rows * cols == (rows - 1) * cols + cols;
    } else {
      assert GridPositions(rows, cols) == {};
    }
  }

  /** The last row splits off a grid: the rows above it and it share no
      position. */
  lemma GridSplit(rows: nat, cols: nat)
    requires rows > 0
    ensures var a, b := GridPositions(rows - 1, cols), RowPositions(rows - 1, cols);
      GridPositions(rows, cols) == a + b && a * b == {} &&
      |GridPositions(rows, cols)| == |a| + |b|
  {
    var a, b := GridPositions(rows - 1, cols), RowPositions(rows - 1, cols);
    forall p | p in GridPositions(rows, cols) ensures p in a + b {
      if p.0 < rows - 1 {
        assert p in a;
      } else {
        assert p in b;
      }
    }
    assert a + b <= GridPositions(rows, cols);
    assert a * b == {} by {
      forall p | p in a ensures p !in b {
      }
    }
  }

  lemma InBoundsSetCard(s: set<Pos>, rows: nat, cols: nat)
    requires forall p :: p in s ==> InBounds(p, rows, cols)
    ensures |s| <= rows * cols
  {
    var g := GridPositions(rows, cols);
    assert s <= g;
    GridPositionsCard(rows, cols);
    assert g == s + (g - s);
    assert |g| == |s| + |g - s|;
  }

  /** The grid cells satisfying `p`. */
  function Where(s: set<Pos>, p: Pos -> bool): set<Pos>
  {
    set q | q in s && p(q)
  }

  /** A counting loop over the columns of row `r`. */
  function RowCount(r: int, cols: nat, p: Pos -> bool): nat
  {
    if cols == 0 then 0 else RowCount(r, cols - 1, p) + (if p((r, cols - 1)) then 1 else 0)
  }

  /** The nested counting loops `for row in 0..rows { for col in 0..cols { .. } }`. */
  function GridCount(rows: nat, cols: nat, p: Pos -> bool): nat
  {
    if rows == 0 then 0 else GridCount(rows - 1, cols, p) + RowCount(rows - 1, cols, p)
  }

  lemma {:induction false} RowCountCard(r: int, cols: nat, p: Pos -> bool)
    ensures RowCount(r, cols, p) == |Where(RowPositions(r, cols), p)|
    decreases cols
  {
    if cols > 0 {
      RowCountCard(r, cols - 1, p);
      var a := Where(RowPositions(r, cols - 1), p);
      if p((r, cols - 1)) {
        assert Where(RowPositions(r, cols), p) == a + {(r, cols - 1)};
      } else {
        assert Where(RowPositions(r, cols), p) == a;
      }
    } else {
      assert Where(RowPositions(r, cols), p) == {};
    }
  }

  /** Counting cells row by row counts each cell that satisfies `p` once. */
  lemma {:induction false} GridCountCard(rows: nat, cols: nat, p: Pos -> bool)
    ensures GridCount(rows, cols, p) == |Where(GridPositions(rows, cols), p)|
    decreases rows
  {
    if rows > 0 {
      GridCountCard(rows - 1, cols, p);
      RowCountCard(rows - 1, cols, p);
      var a := Where(GridPositions(rows - 1, cols), p);
      var b := Where(RowPositions(rows - 1, cols), p);
      forall q | q in Where(GridPositions(rows, cols), p) ensures q in a + b {
        if q.0 < rows - 1 {
          assert q in GridPositions(rows - 1, cols);
        } else {
          assert q in RowPositions(rows - 1, cols);
        }
      }
      assert Where(GridPositions(rows, cols), p) == a + b;
      assert a !! b;
    } else {
      assert Where(GridPositions(rows, cols), p) == {};
    }
  }

  /** A summing loop over the columns of row `r`. */
  function RowSum(r: int, cols: nat, f: Pos -> nat): nat
  {
    if cols == 0 then 0 else RowSum(r, cols - 1, f) + f((r, cols - 1))
  }

  /** The nested summing loops over every cell, row by row. */
  function GridSum(rows: nat, cols: nat, f: Pos -> nat): nat
  {
    if rows == 0 then 0 else GridSum(rows - 1, cols, f) + RowSum(rows - 1, cols, f)
  }

  lemma {:induction false} RowSumBound(r: int, cols: nat, f: Pos -> nat, m: nat)
    requires forall c :: 0 <= c < cols ==> f((r, c)) <= m
    ensures RowSum(r, cols, f) <= m * cols
    decreases cols
  {
    if cols > 0 {
      RowSumBound(r, cols - 1, f, m);
      assert m * cols == m * (cols - 1) + m;
    }
  }

  /** Cells contributing at most `m` each add up to at most m * rows * cols. */
  lemma {:induction false} GridSumBound(rows: nat, cols: nat, f: Pos -> nat, m: nat)
    requires forall q :: InBounds(q, rows, cols) ==> f(q) <= m
    ensures GridSum(rows, cols, f) <= m * (rows * cols)
    decreases rows
  {
    if rows > 0 {
      GridSumBound(rows - 1, cols, f, m);
      RowSumBound(rows - 1, cols, f, m);
      RowsStep(m, rows, cols);
    }
  }

  /** The pairs `(q, j)` of a cell `q` of `qs` and a tag `j` of `s(q)`. */
  function Pairs(qs: set<Pos>, s: Pos -> set<nat>): set<(Pos, nat)>
  {
    set q, j | q in qs && j in s(q) :: (q, j)
  }

  /** The tags of `t`, each paired with cell `q`. */
  function Tagged(q: Pos, t: set<nat>): set<(Pos, nat)>
  {
    set j | j in t :: (q, j)
  }

  /** Tagging a set with one cell keeps its size. */
  lemma {:induction false} TagCard(q: Pos, t: set<nat>)
    ensures |Tagged(q, t)| == |t|
    decreases |t|
  {
    if t == {} {
      assert Tagged(q, t) == {};
    } else {
      var x :| x in t;
      TagCard(q, t - {x});
      assert Tagged(q, t) == Tagged(q, t - {x}) + {(q, x)};
      assert (q, x) !in Tagged(q, t - {x});
    }
  }

  /** The pairs of two disjoint sets of cells add up. */
  lemma PairsUnion(a: set<Pos>, b: set<Pos>, s: Pos -> set<nat>)
    requires a !! b
    ensures |Pairs(a + b, s)| == |Pairs(a, s)| + |Pairs(b, s)|
  {
    assert Pairs(a + b, s) == Pairs(a, s) + Pairs(b, s);
    assert Pairs(a, s) !! Pairs(b, s);
  }

  lemma PairsSingle(q: Pos, s: Pos -> set<nat>)
    ensures |Pairs({q}, s)| == |s(q)|
  {
    assert Pairs({q}, s) == Tagged(q, s(q));
    TagCard(q, s(q));
  }

  /** Summing the tag counts along a row counts the row's pairs. */
  lemma {:induction false} RowSumPairs(r: int, cols: nat, f: Pos -> nat, s: Pos -> set<nat>)
    requires forall c :: 0 <= c < cols ==> f((r, c)) == |s((r, c))|
    ensures RowSum(r, cols, f) == |Pairs(RowPositions(r, cols), s)|
    decreases cols
  {
    if cols > 0 {
      RowSumPairs(r, cols - 1, f, s);
      assert RowPositions(r, cols) == RowPositions(r, cols - 1) + {(r, cols - 1)};
      PairsUnion(RowPositions(r, cols - 1), {(r, cols - 1)}, s);
      PairsSingle((r, cols - 1), s);
    } else {
      assert Pairs(RowPositions(r, cols), s) == {};
    }
  }

  /** Summing the tag counts over the grid counts its pairs: a nested
      loop that adds, per cell, the number of tags that cell has counts
      each (cell, tag) pair once. */
  lemma {:induction false} GridSumPairs(rows: nat, cols: nat, f: Pos -> nat, s: Pos -> set<nat>)
    requires forall q :: InBounds(q, rows, cols) ==> f(q) == |s(q)|
    ensures GridSum(rows, cols, f) == |Pairs(GridPositions(rows, cols), s)|
    decreases rows
  {
    if rows > 0 {
      GridSumPairs(rows - 1, cols, f, s);
      var r := rows - 1;
      assert forall c :: 0 <= c < cols ==> f((r, c)) == |s((r, c))| by {
        forall c | 0 <= c < cols ensures f((r, c)) == |s((r, c))| {
          assert InBounds((r, c), rows, cols);
        }
      }
      RowSumPairs(r, cols, f, s);
      GridRowPairs(rows, cols, s);
    } else {
      assert Pairs(GridPositions(rows, cols), s) == {};
    }
  }

  /** The pairs over a grid are those over its first rows and those over
      its last row. */
  lemma GridRowPairs(rows: nat, cols: nat, s: Pos -> set<nat>)
    requires rows > 0
    ensures |Pairs(GridPositions(rows, cols), s)| ==
      |Pairs(GridPositions(rows - 1, cols), s)| + |Pairs(RowPositions(rows - 1, cols), s)|
  {
    GridSplit(rows, cols);
    PairsUnion(GridPositions(rows - 1, cols), RowPositions(rows - 1, cols), s);
  }

  lemma RowsStep(m: nat, rows: nat, cols: nat)
    requires rows > 0
    ensures m * (rows * cols) == m * ((rows - 1) * cols) + m * cols
  {
    assert rows * cols == (rows - 1) * cols + cols;
  }

  /** Multiplying by a non-negative factor keeps order. */
  lemma MulLe(a: int, b: int, c: int)
    requires c >= 0
    ensures a <= b ==> a * c <= b * c
  {
    if a <= b {
      assert b * c == a * c + (b - a) * c;
    }
  }

  /** Row-major index (r, c) of an n-row grid lies inside it. */
  lemma RowIndexBound(r: nat, c: nat, n: nat, cols: nat)
    requires r < n && c < cols
    ensures 0 <= r * cols + c < n * cols
  {
    MulLe(r + 1, n, cols);
    assert (r + 1) * cols == r * cols + cols;
  }

  lemma MulAtLeast(x: int, b: int)
    requires b > 0 && x >= 1
    ensures x * b >= b
  {
  }

  lemma MulAtMost(x: int, b: int)
    requires b > 0 && x <= -1
    ensures x * b <= -b
  {
  }

  /** Exact division undoes multiplication. */
  lemma DivMulExact(a: int, b: int)
    requires b > 0
    ensures (a * b) / b == a
  {
    var q, r := (a * b) / b, (a * b) % b;
    assert a * b == q * b + r;
    assert (a - q) * b == r;
    if a - q >= 1 {
      MulAtLeast(a - q, b);
      assert false;
    } else if a - q <= -1 {
      MulAtMost(a - q, b);
      assert false;
    }
  }

  /** A subset is no larger than its superset. */
  lemma SubsetCard<T>(a: set<T>, b: set<T>)
    requires a <= b
    ensures |a| <= |b|
  {
    assert b == a + (b - a);
  }
}
