/** Day 5: page-ordering rules, updates that respect them, and Kahn's
    topological sort used to put the others in order. */
module Day05 {
  import opened Common
  import Decimal
  import Sorting
  import Text

  /** A rule `a|b`: page a must come before page b. */
  type Edge = (int, int)

  /** `u8_from_bytes`: place-value parsing with a two-entry power table. */
  function U8FromBytes(bs: seq<char>): (n: nat)
    requires |bs| <= 2
    ensures Decimal.IsDecimalText(bs) ==> n == Decimal.Parse(bs) < 100
  {
    if Decimal.IsDecimalText(bs) then
      Decimal.PlaceValueWithin(bs, 2);
      Decimal.PlaceValue(bs)
    else Decimal.PlaceValue(bs)
  }

  predicate NoDup(s: seq<int>)
  {
    forall i, j :: 0 <= i < j < |s| ==> s[i] != s[j]
  }

  predicate Increasing(s: seq<int>)
  {
    forall i, j :: 0 <= i < j < |s| ==> s[i] < s[j]
  }

  function IndexOf(s: seq<int>, x: int): (i: nat)
    requires x in s
    ensures i < |s| && s[i] == x
    ensures forall k :: 0 <= k < i ==> s[k] != x
  {
    if s[0] == x then 0 else 1 + IndexOf(s[1..], x)
  }

  lemma IndexOfAppend(s: seq<int>, y: int, x: int)
    requires x in s
    ensures IndexOf(s + [y], x) == IndexOf(s, x)
  {
    if s[0] != x {
      assert (s + [y])[1..] == s[1..] + [y];
      IndexOfAppend(s[1..], y, x);
    }
  }

  lemma IndexOfLast(s: seq<int>, y: int)
    requires y !in s
    ensures IndexOf(s + [y], y) == |s|
  {
    if |s| > 0 {
      assert (s + [y])[1..] == s[1..] + [y];
      IndexOfLast(s[1..], y);
    }
  }

  /** Both endpoints of every edge, in order. */
  function Endpoints(graph: seq<Edge>): (r: seq<int>)
    ensures forall x :: x in r <==> exists e :: e in graph && (e.0 == x || e.1 == x)
  {
    if |graph| == 0 then []
    else
      var r := [graph[0].0, graph[0].1] + Endpoints(graph[1..]);
      assert forall e :: e in graph ==> e == graph[0] || e in graph[1..];
      r
  }

  /** `dedup` of a sorted vector: adjacent repeats dropped. */
  function Dedup(s: seq<int>): (r: seq<int>)
    requires Sorting.Sorted(s)
    ensures Increasing(r)
    ensures forall x :: x in r <==> x in s
  {
    if |s| <= 1 then s
    else if s[0] == s[1] then Dedup(s[1..])
    else
      var rest := Dedup(s[1..]);
      Sorting.SortedHead(s[1..]);
      assert forall k :: 0 <= k < |rest| ==> rest[k] in s[1..];
      [s[0]] + rest
  }

  /** The sorted, duplicate-free vertices of `top_sort`. */
  function Vertices(graph: seq<Edge>): (r: seq<int>)
    ensures Increasing(r)
    ensures forall x :: x in r <==> exists e :: e in graph && (e.0 == x || e.1 == x)
  {
    var ends := Endpoints(graph);
    Sorting.InSort(ends);
    Dedup(Sorting.Sort(ends))
  }

  /** `graph.iter().any(|&(_, b)| b == v)`. */
  predicate HasIncoming(g: seq<Edge>, v: int)
  {
    exists e :: e in g && e.1 == v
  }

  /** The vertices with no incoming edge, in their order. */
  function Sources(vs: seq<int>, g: seq<Edge>): (r: seq<int>)
    ensures forall x :: x in r <==> x in vs && !HasIncoming(g, x)
    ensures Increasing(vs) ==> Increasing(r)
  {
    if |vs| == 0 then []
    else
      var rest := Sources(vs[1..], g);
      if HasIncoming(g, vs[0]) then rest
      else
        forall k | 0 <= k < |rest| && Increasing(vs)
          ensures vs[0] < rest[k]
        {
          assert rest[k] in rest;
          var j :| 0 <= j < |vs[1..]| && vs[1..][j] == rest[k];
          assert vs[j + 1] == rest[k];
        }
        [vs[0]] + rest
  }

  /** The edge list with every copy of `e` filtered out. */
  function RemoveEdge(g: seq<Edge>, e: Edge): (r: seq<Edge>)
    ensures forall x :: x in r <==> x in g && x != e
  {
    if |g| == 0 then []
    else (if g[0] == e then [] else [g[0]]) + RemoveEdge(g[1..], e)
  }

  /** A ranking that every edge climbs: the graph has no cycle. */
  ghost predicate Acyclic(graph: seq<Edge>)
  {
    exists rank: int -> nat :: Ranks(graph, rank)
  }

  predicate Ranks(graph: seq<Edge>, rank: int -> nat)
  {
    forall e :: e in graph ==> rank(e.0) < rank(e.1)
  }

  /** What `top_sort` promises of its output. */
  ghost predicate IsTopOrder(graph: seq<Edge>, sorted: seq<int>)
  {
    && NoDup(sorted)
    && (forall x :: x in sorted ==> x in Vertices(graph))
    && (forall e :: e in graph && e.1 in sorted ==> e.0 in sorted && IndexOf(sorted, e.0) < IndexOf(sorted, e.1))
    && (Acyclic(graph) <==> forall v :: v in Vertices(graph) ==> v in sorted)
  }

  lemma NoDupLength(s: seq<int>, t: seq<int>)
    requires NoDup(s) && NoDup(t)
    requires forall x :: x in s ==> x in t
    ensures |s| <= |t|
  {
    DistinctCard(s);
    DistinctCard(t);
    var a, b := set x | x in s, set x | x in t;
    assert a <= b;
    assert b == a + (b - a);
    assert |b| == |a| + |b - a|;
  }

  lemma {:induction false} DistinctCard(s: seq<int>)
    requires NoDup(s)
    ensures |set x | x in s| == |s|
    decreases |s|
  {
    if |s| > 0 {
      var init := s[..|s| - 1];
      DistinctCard(init);
      assert (set x | x in s) == (set x | x in init) + {s[|s| - 1]};
      assert s[|s| - 1] !in init;
    } else {
      assert (set x | x in s) == {};
    }
  }

  /** The facts Kahn's algorithm keeps about the remaining edges `g`, the
      emitted vertices and the stack. */
  ghost predicate Core(graph: seq<Edge>, vertices: seq<int>, g: seq<Edge>, sorted: seq<int>, initial: seq<int>)
  {
    && NoDup(sorted + initial)
    && (forall x :: x in sorted + initial ==> x in vertices)
    && (forall e :: e in g ==> e in graph)
    && (forall e :: e in graph && e !in g ==> e.0 in sorted)
    && (forall x :: x in sorted + initial ==> !HasIncoming(g, x))
    && (forall e :: e in graph && e.1 in sorted ==> e.0 in sorted && IndexOf(sorted, e.0) < IndexOf(sorted, e.1))
    && (forall v :: v in vertices && v !in sorted + initial ==> HasIncoming(g, v))
  }

  /** Between two pops: no emitted vertex has an outgoing edge left. */
  ghost predicate Inv(graph: seq<Edge>, vertices: seq<int>, g: seq<Edge>, sorted: seq<int>, initial: seq<int>)
  {
    Core(graph, vertices, g, sorted, initial) && forall e :: e in g ==> e.0 !in sorted
  }

  /** While the edges of the popped `n` are removed, up to vertex k. */
  ghost predicate RelaxInv(graph: seq<Edge>, vertices: seq<int>, g: seq<Edge>, before: seq<int>, n: int, initial: seq<int>, k: nat)
    requires k <= |vertices|
  {
    && Core(graph, vertices, g, before + [n], initial)
    && (forall e :: e in g ==> e.0 !in before)
    && (forall j :: 0 <= j < k ==> (n, vertices[j]) !in g)
  }

  /** `top_sort`: Kahn's algorithm with the start vertices on a stack.
      Popping a vertex emits it, removes its outgoing edges in vertex
      order, and pushes each target left with no incoming edge. */
  method TopSort(graph: seq<Edge>) returns (sorted: seq<int>)
    ensures IsTopOrder(graph, sorted)
  {
    var vertices := Vertices(graph);
    var initial := Sources(vertices, graph);
    sorted := [];
    var g := graph;
    while |initial| > 0
      invariant Inv(graph, vertices, g, sorted, initial)
      decreases |vertices| - |sorted|
    {
      NoDupLength(sorted + initial, vertices);
      var n := initial[|initial| - 1];
      var before := sorted;
      Pop(graph, vertices, g, sorted, initial);
      sorted := sorted + [n];
      initial := initial[..|initial| - 1];
      g, initial := Relax(graph, vertices, g, before, n, initial);
    }
    assert sorted + initial == sorted;
    Completeness(graph, vertices, sorted, g);
  }

  /** Popping the top of the stack and emitting it. */
  lemma Pop(graph: seq<Edge>, vertices: seq<int>, g: seq<Edge>, sorted: seq<int>, initial: seq<int>)
    requires |initial| > 0 && Inv(graph, vertices, g, sorted, initial)
    ensures RelaxInv(graph, vertices, g, sorted, initial[|initial| - 1], initial[..|initial| - 1], 0)
  {
    var n := initial[|initial| - 1];
    var rest := initial[..|initial| - 1];
    assert sorted + initial == sorted + rest + [n];
    NoDupLast(sorted, rest, n);
    EmitKeepsOrder(graph, g, sorted, n);
    assert (sorted + [n]) + rest == sorted + [n] + rest;
    PermuteNoDup(sorted, rest, n);
    assert forall x :: x in sorted + [n] + rest <==> x in sorted + initial;
  }

  /** The inner `for v in &vertices` loop of `top_sort`. */
  method Relax(graph: seq<Edge>, vertices: seq<int>, g0: seq<Edge>, before: seq<int>, n: int, initial0: seq<int>)
    returns (g: seq<Edge>, initial: seq<int>)
    requires vertices == Vertices(graph)
    requires RelaxInv(graph, vertices, g0, before, n, initial0, 0)
    ensures Inv(graph, vertices, g, before + [n], initial)
  {
    g, initial := g0, initial0;
    var k := 0;
    while k < |vertices|
      invariant k <= |vertices|
      invariant RelaxInv(graph, vertices, g, before, n, initial, k)
    {
      var v := vertices[k];
      if (n, v) in g {
        var g' := RemoveEdge(g, (n, v));
        var push := !HasIncoming(g', v);
        RelaxStep(graph, vertices, g, before, n, initial, k, push);
        g := g';
        if push {
          initial := initial + [v];
        }
      }
      k := k + 1;
    }
    forall e | e in g ensures e.0 !in before + [n] {
      assert e.1 in vertices;
      var j :| 0 <= j < |vertices| && vertices[j] == e.1;
    }
  }

  lemma RelaxStep(graph: seq<Edge>, vertices: seq<int>, g: seq<Edge>, before: seq<int>, n: int, initial: seq<int>, k: nat, push: bool)
    requires k < |vertices|
    requires RelaxInv(graph, vertices, g, before, n, initial, k)
    requires (n, vertices[k]) in g
    requires push == !HasIncoming(RemoveEdge(g, (n, vertices[k])), vertices[k])
    ensures RelaxInv(graph, vertices, RemoveEdge(g, (n, vertices[k])), before, n,
                     if push then initial + [vertices[k]] else initial, k + 1)
  {
    var g2 := RemoveEdge(g, (n, vertices[k]));
    var initial2 := if push then initial + [vertices[k]] else initial;
    RelaxList(graph, vertices, g, before, n, initial, k, push, g2, initial2);
    RelaxEdges(graph, vertices, g, before, n, initial, k, g2);
    RelaxWaiting(graph, vertices, g, before, n, initial, k, push, g2, initial2);
  }

  /** Relaxing an edge keeps the emitted and waiting vertices distinct,
      known and free of incoming edges. */
  lemma RelaxList(graph: seq<Edge>, vertices: seq<int>, g: seq<Edge>, before: seq<int>, n: int, initial: seq<int>, k: nat, push: bool,
                  g2: seq<Edge>, initial2: seq<int>)
    requires k < |vertices|
    requires RelaxInv(graph, vertices, g, before, n, initial, k)
    requires (n, vertices[k]) in g
    requires g2 == RemoveEdge(g, (n, vertices[k])) && push == !HasIncoming(g2, vertices[k])
    requires initial2 == if push then initial + [vertices[k]] else initial
    ensures NoDup(before + [n] + initial2)
    ensures forall x :: x in before + [n] + initial2 ==> x in vertices
    ensures forall x :: x in before + [n] + initial2 ==> !HasIncoming(g2, x)
  {
    var v := vertices[k];
    var sorted := before + [n];
    assert HasIncoming(g, v);
    assert v !in sorted + initial;
    if push {
      assert sorted + (initial + [v]) == (sorted + initial) + [v];
    }
  }

  /** Relaxing an edge only removes edges out of the vertex being
      emitted. */
  lemma RelaxEdges(graph: seq<Edge>, vertices: seq<int>, g: seq<Edge>, before: seq<int>, n: int, initial: seq<int>, k: nat, g2: seq<Edge>)
    requires k < |vertices|
    requires RelaxInv(graph, vertices, g, before, n, initial, k)
    requires g2 == RemoveEdge(g, (n, vertices[k]))
    ensures forall e :: e in g2 ==> e in graph
    ensures forall e :: e in graph && e !in g2 ==> e.0 in before + [n]
    ensures forall e :: e in g2 ==> e.0 !in before
    ensures forall j :: 0 <= j < k + 1 ==> (n, vertices[j]) !in g2
  {
  }

  /** A vertex neither emitted nor waiting still has an incoming edge. */
  lemma RelaxWaiting(graph: seq<Edge>, vertices: seq<int>, g: seq<Edge>, before: seq<int>, n: int, initial: seq<int>, k: nat, push: bool,
                     g2: seq<Edge>, initial2: seq<int>)
    requires k < |vertices|
    requires RelaxInv(graph, vertices, g, before, n, initial, k)
    requires g2 == RemoveEdge(g, (n, vertices[k])) && push == !HasIncoming(g2, vertices[k])
    requires initial2 == if push then initial + [vertices[k]] else initial
    ensures forall v :: v in vertices && v !in before + [n] + initial2 ==> HasIncoming(g2, v)
  {
    forall v | v in vertices && v !in before + [n] + initial2
      ensures HasIncoming(g2, v)
    {
      if v != vertices[k] {
        var e :| e in g && e.1 == v;
        assert e in g2;
      }
    }
  }

  lemma PermuteNoDup(before: seq<int>, initial: seq<int>, n: int)
    requires NoDup(before + initial + [n])
    ensures NoDup(before + [n] + initial)
  {
    var a := before + initial + [n];
    var b := before + [n] + initial;
    forall i, j | 0 <= i < j < |b| ensures b[i] != b[j] {
      var i' := if i < |before| then i else if i == |before| then |a| - 1 else i - 1;
      var j' := if j < |before| then j else if j == |before| then |a| - 1 else j - 1;
      assert a[i'] == b[i] && a[j'] == b[j];
      assert i' != j';
    }
  }

  /** Emitting `n`, which has no incoming edge left, keeps every edge's
      source ahead of its target. */
  lemma EmitKeepsOrder(graph: seq<Edge>, g: seq<Edge>, sorted: seq<int>, n: int)
    requires n !in sorted
    requires forall e :: e in graph && e !in g ==> e.0 in sorted
    requires !HasIncoming(g, n)
    requires forall e :: e in graph && e.1 in sorted ==> e.0 in sorted && IndexOf(sorted, e.0) < IndexOf(sorted, e.1)
    ensures forall e :: e in graph && e.1 in sorted + [n] ==>
      e.0 in sorted + [n] && IndexOf(sorted + [n], e.0) < IndexOf(sorted + [n], e.1)
  {
    var s := sorted + [n];
    forall e | e in graph && e.1 in s ensures e.0 in s && IndexOf(s, e.0) < IndexOf(s, e.1) {
      if e.1 in sorted {
        IndexOfAppend(sorted, n, e.0);
        IndexOfAppend(sorted, n, e.1);
      } else {
        assert e.1 == n;
        assert e !in g;
        IndexOfAppend(sorted, n, e.0);
        IndexOfLast(sorted, n);
      }
    }
  }

  lemma NoDupLast(a: seq<int>, b: seq<int>, n: int)
    requires NoDup(a + b + [n])
    ensures n !in a
  {
    var s := a + b + [n];
    forall i | 0 <= i < |a| ensures a[i] != n {
      assert s[i] == a[i] && s[|s| - 1] == n;
    }
  }

  /** At the end every vertex is emitted exactly when the graph is acyclic. */
  lemma Completeness(graph: seq<Edge>, vertices: seq<int>, sorted: seq<int>, g: seq<Edge>)
    requires vertices == Vertices(graph)
    requires forall e :: e in g ==> e in graph
    requires forall e :: e in g ==> e.0 !in sorted
    requires forall v :: v in vertices && v !in sorted ==> HasIncoming(g, v)
    requires forall e :: e in graph && e.1 in sorted ==> e.0 in sorted && IndexOf(sorted, e.0) < IndexOf(sorted, e.1)
    ensures Acyclic(graph) <==> forall v :: v in vertices ==> v in sorted
  {
    if Acyclic(graph) {
      var rank: int -> nat :| Ranks(graph, rank);
      forall v | v in vertices ensures v in sorted {
        Emitted(graph, vertices, sorted, g, rank, v);
      }
    }
    if forall v :: v in vertices ==> v in sorted {
      OrderRanks(graph, vertices, sorted);
    }
  }

  /** A complete output ranks the graph by position. */
  lemma OrderRanks(graph: seq<Edge>, vertices: seq<int>, sorted: seq<int>)
    requires vertices == Vertices(graph)
    requires forall v :: v in vertices ==> v in sorted
    requires forall e :: e in graph && e.1 in sorted ==> e.0 in sorted && IndexOf(sorted, e.0) < IndexOf(sorted, e.1)
    ensures Acyclic(graph)
  {
    var rank: int -> nat := x => if x in sorted then IndexOf(sorted, x) else 0;
    forall e | e in graph ensures rank(e.0) < rank(e.1) {
      assert e.1 in vertices;
    }
    assert Ranks(graph, rank);
  }

  lemma Emitted(graph: seq<Edge>, vertices: seq<int>, sorted: seq<int>, g: seq<Edge>, rank: int -> nat, v: int)
    requires vertices == Vertices(graph)
    requires Ranks(graph, rank)
    requires forall e :: e in g ==> e in graph
    requires forall e :: e in g ==> e.0 !in sorted
    requires forall v :: v in vertices && v !in sorted ==> HasIncoming(g, v)
    requires v in vertices
    ensures v in sorted
    decreases rank(v)
  {
    if v !in sorted {
      var e :| e in g && e.1 == v;
      assert e.0 in vertices;
      Emitted(graph, vertices, sorted, g, rank, e.0);
      assert false;
    }
  }

  // ----- the updates -----

  /** The double loop of `part1`: no later page has a rule placing it
      before an earlier one. */
  predicate InOrder(rules: seq<Edge>, update: seq<int>)
  {
    forall i, j :: 0 <= i < j < |update| ==> (update[j], update[i]) !in rules
  }

  /** The scan from position i onwards, as the loops run it. */
  function CheckFrom(rules: seq<Edge>, update: seq<int>, i: nat): (ok: bool)
    requires i <= |update|
    ensures ok <==> forall a, b :: i <= a < b < |update| ==> (update[b], update[a]) !in rules
    decreases |update| - i
  {
    if i == |update| then true
    else CheckPairs(rules, update, i, i + 1) && CheckFrom(rules, update, i + 1)
  }

  function CheckPairs(rules: seq<Edge>, update: seq<int>, i: nat, j: nat): (ok: bool)
    requires i < j <= |update|
    ensures ok <==> forall b :: j <= b < |update| ==> (update[b], update[i]) !in rules
    decreases |update| - j
  {
    if j == |update| then true
    else (update[j], update[i]) !in rules && CheckPairs(rules, update, i, j + 1)
  }

  /** The updates `part1` accepts are exactly those in order. */
  lemma CheckIsInOrder(rules: seq<Edge>, update: seq<int>)
    ensures CheckFrom(rules, update, 0) <==> InOrder(rules, update)
  {
  }

  function Middle(s: seq<int>): int
    requires |s| > 0
  {
    s[|s| / 2]
  }

  /** The updates that are in order, in input order. */
  function Accepted(rules: seq<Edge>, updates: seq<seq<int>>): seq<seq<int>>
  {
    Filter(updates, u => InOrder(rules, u))
  }

  /** The sum of the middle pages of non-empty updates. */
  function SumMiddles(us: seq<seq<int>>): int
    requires forall u :: u in us ==> |u| > 0
  {
    if |us| == 0 then 0 else Middle(us[0]) + SumMiddles(us[1..])
  }

  lemma {:induction false} SumMiddlesSnoc(us: seq<seq<int>>, u: seq<int>)
    requires forall v :: v in us ==> |v| > 0
    requires |u| > 0
    ensures SumMiddles(us + [u]) == SumMiddles(us) + Middle(u)
    decreases |us|
  {
    if |us| == 0 {
      assert us + [u] == [u];
      assert [u][1..] == [];
    } else {
      assert (us + [u])[0] == us[0];
      assert (us + [u])[1..] == us[1..] + [u];
      SumMiddlesSnoc(us[1..], u);
    }
  }

  /** `part1`'s total: the middle page of each accepted update; an
      accepted empty update panics on indexing. */
  function SumOrdered(rules: seq<Edge>, updates: seq<seq<int>>): Option<int>
  {
    if |updates| == 0 then Some(0)
    else
      var u := updates[|updates| - 1];
      var prev := SumOrdered(rules, updates[..|updates| - 1]);
      if !CheckFrom(rules, u, 0) then prev
      else if |u| == 0 || prev.None? then None
      else Some(prev.value + Middle(u))
  }

  /** The loop's total is defined exactly when no accepted update is empty,
      and is then the sum of the accepted updates' middle pages. */
  lemma {:induction false} SumOrderedMiddles(rules: seq<Edge>, updates: seq<seq<int>>)
    ensures SumOrdered(rules, updates).Some? <==> forall u :: u in Accepted(rules, updates) ==> |u| > 0
    ensures SumOrdered(rules, updates).Some? ==>
      SumOrdered(rules, updates).value == SumMiddles(Accepted(rules, updates))
    decreases |updates|
  {
    if |updates| > 0 {
      var init := updates[..|updates| - 1];
      var u := updates[|updates| - 1];
      SumOrderedMiddles(rules, init);
      assert updates == init + [u];
      SumOrderedStep(rules, init, u);
    }
  }

  lemma SumOrderedStep(rules: seq<Edge>, init: seq<seq<int>>, u: seq<int>)
    requires SumOrdered(rules, init).Some? <==> forall v :: v in Accepted(rules, init) ==> |v| > 0
    requires SumOrdered(rules, init).Some? ==> SumOrdered(rules, init).value == SumMiddles(Accepted(rules, init))
    ensures SumOrdered(rules, init + [u]).Some? <==> forall v :: v in Accepted(rules, init + [u]) ==> |v| > 0
    ensures SumOrdered(rules, init + [u]).Some? ==>
      SumOrdered(rules, init + [u]).value == SumMiddles(Accepted(rules, init + [u]))
  {
    assert (init + [u])[..|init|] == init;
    FilterSnoc(init, u, v => InOrder(rules, v));
    CheckIsInOrder(rules, u);
    if !InOrder(rules, u) {
      assert Accepted(rules, init + [u]) == Accepted(rules, init);
    } else if |u| > 0 && SumOrdered(rules, init).Some? {
      assert Accepted(rules, init + [u]) == Accepted(rules, init) + [u];
      SumMiddlesSnoc(Accepted(rules, init), u);
    } else if |u| == 0 {
      assert u in Accepted(rules, init + [u]);
    }
  }

  /** The rules whose two pages both occur in the update. */
  function Subgraph(rules: seq<Edge>, update: seq<int>): (r: seq<Edge>)
    ensures forall e :: e in r <==> e in rules && e.0 in update && e.1 in update
  {
    if |rules| == 0 then []
    else
      (if rules[0].0 in update && rules[0].1 in update then [rules[0]] else [])
      + Subgraph(rules[1..], update)
  }

  /** What `part2` adds, given the topological order found for each
      update: the middle of that order whenever it differs from the
      update; an empty order panics. */
  function SumReordered(updates: seq<seq<int>>, orders: seq<seq<int>>): Option<int>
    requires |orders| == |updates|
  {
    if |updates| == 0 then Some(0)
    else
      var n := |updates| - 1;
      var prev := SumReordered(updates[..n], orders[..n]);
      if orders[n] == updates[n] then prev
      else if |orders[n]| == 0 || prev.None? then None
      else Some(prev.value + Middle(orders[n]))
  }

  /** The total is defined exactly when no changed order is empty, and is
      then the sum of the changed orders' middle pages. */
  lemma {:induction false} SumReorderedMiddles(updates: seq<seq<int>>, orders: seq<seq<int>>)
    requires |orders| == |updates|
    ensures SumReordered(updates, orders).Some? <==> forall o :: o in Changed(updates, orders) ==> |o| > 0
    ensures SumReordered(updates, orders).Some? ==>
      SumReordered(updates, orders).value == SumMiddles(Changed(updates, orders))
    decreases |updates|
  {
    if |updates| > 0 {
      var n := |updates| - 1;
      SumReorderedMiddles(updates[..n], orders[..n]);
      assert updates == updates[..n] + [updates[n]] && orders == orders[..n] + [orders[n]];
      ChangedSnoc(updates[..n], orders[..n], updates[n], orders[n]);
      if orders[n] == updates[n] {
        assert Changed(updates, orders) == Changed(updates[..n], orders[..n]);
      } else if |orders[n]| > 0 && SumReordered(updates[..n], orders[..n]).Some? {
        SumMiddlesSnoc(Changed(updates[..n], orders[..n]), orders[n]);
      } else if |orders[n]| == 0 {
        assert orders[n] in Changed(updates, orders);
      }
    }
  }

  /** The orders that differ from their update, in input order: the ones
      `part2` reads a middle page from. */
  function Changed(updates: seq<seq<int>>, orders: seq<seq<int>>): seq<seq<int>>
    requires |orders| == |updates|
  {
    if |updates| == 0 then []
    else
      (if orders[0] == updates[0] then [] else [orders[0]]) + Changed(updates[1..], orders[1..])
  }

  lemma {:induction false} ChangedSnoc(updates: seq<seq<int>>, orders: seq<seq<int>>, u: seq<int>, o: seq<int>)
    requires |orders| == |updates|
    ensures Changed(updates + [u], orders + [o]) == Changed(updates, orders) + (if o == u then [] else [o])
    decreases |updates|
  {
    if |updates| == 0 {
      assert updates + [u] == [u] && orders + [o] == [o];
      assert [u][1..] == [] && [o][1..] == [];
    } else {
      assert (updates + [u])[0] == updates[0] && (orders + [o])[0] == orders[0];
      assert (updates + [u])[1..] == updates[1..] + [u];
      assert (orders + [o])[1..] == orders[1..] + [o];
      ChangedSnoc(updates[1..], orders[1..], u, o);
    }
  }

  /** The `top_sort` of each update's rules, update by update. */
  method TopOrders(rules: seq<Edge>, updates: seq<seq<int>>) returns (orders: seq<seq<int>>)
    ensures |orders| == |updates|
    ensures forall i :: 0 <= i < |updates| ==> IsTopOrder(Subgraph(rules, updates[i]), orders[i])
  {
    orders := [];
    while |orders| < |updates|
      invariant |orders| <= |updates|
      invariant forall i :: 0 <= i < |orders| ==> IsTopOrder(Subgraph(rules, updates[i]), orders[i])
    {
      var sorted := TopSort(Subgraph(rules, updates[|orders|]));
      TopOrdersSnoc(rules, updates, orders, sorted);
      orders := orders + [sorted];
    }
  }

  lemma TopOrdersSnoc(rules: seq<Edge>, updates: seq<seq<int>>, orders: seq<seq<int>>, sorted: seq<int>)
    requires |orders| < |updates|
    requires forall i :: 0 <= i < |orders| ==> IsTopOrder(Subgraph(rules, updates[i]), orders[i])
    requires IsTopOrder(Subgraph(rules, updates[|orders|]), sorted)
    ensures forall i :: 0 <= i <= |orders| ==> IsTopOrder(Subgraph(rules, updates[i]), (orders + [sorted])[i])
  {
    forall i | 0 <= i <= |orders|
      ensures IsTopOrder(Subgraph(rules, updates[i]), (orders + [sorted])[i])
    {
      if i < |orders| {
        assert (orders + [sorted])[i] == orders[i];
      } else {
        assert (orders + [sorted])[i] == sorted;
      }
    }
  }

  /** `part2` over parsed input: each update's rules are sorted with
      Kahn's algorithm and the orders feed the sum. */
  method ReorderSum(rules: seq<Edge>, updates: seq<seq<int>>) returns (r: Option<int>, orders: seq<seq<int>>)
    ensures |orders| == |updates|
    ensures forall i :: 0 <= i < |updates| ==> IsTopOrder(Subgraph(rules, updates[i]), orders[i])
    ensures r.Some? <==> forall o :: o in Changed(updates, orders) ==> |o| > 0
    ensures r.Some? ==> r.value == SumMiddles(Changed(updates, orders))
  {
    orders := TopOrders(rules, updates);
    r := SumReordered(updates, orders);
    SumReorderedMiddles(updates, orders);
  }

  // ----- parsing -----

  /** The lines before the first empty line and those after it; `None`
      when there is no empty line and `lines.next().unwrap()` panics. */
  function SplitAtBlank(lines: seq<seq<char>>): (r: Option<(seq<seq<char>>, seq<seq<char>>)>)
    ensures r.Some? ==> r.value.0 + [[]] + r.value.1 == lines && [] !in r.value.0
    ensures r.None? <==> [] !in lines
  {
    if |lines| == 0 then None
    else if lines[0] == [] then Some(([], lines[1..]))
    else
      match SplitAtBlank(lines[1..])
      case None => None
      case Some((a, b)) => Some(([lines[0]] + a, b))
  }

  /** A rule line `ab|cd`: bytes 0..2 and 3..5; shorter lines panic. */
  function ParseRule(line: seq<char>): (r: Option<Edge>)
    ensures r.Some? <==> |line| >= 5
  {
    if |line| >= 5 then Some((U8FromBytes(line[0..2]), U8FromBytes(line[3..5]))) else None
  }

  /** Every field has at most two bytes, the length of the power table. */
  predicate ShortFields(f: seq<seq<char>>)
  {
    forall i :: 0 <= i < |f| ==> |f[i]| <= 2
  }

  /** An update line: its comma-separated pages. */
  function ParseUpdate(line: seq<char>): (r: Option<seq<int>>)
    ensures r.Some? <==> ShortFields(Text.Split(line, ','))
    ensures r.Some? ==> |r.value| == |Text.Split(line, ',')|
    ensures r.Some? ==> forall i :: 0 <= i < |r.value| && Decimal.IsDecimalText(Text.Split(line, ',')[i]) ==>
      r.value[i] == Decimal.Parse(Text.Split(line, ',')[i])
  {
    var f := Text.Split(line, ',');
    if ShortFields(f) then
      var pages := seq(|f|, i requires 0 <= i < |f| && |f[i]| <= 2 => U8FromBytes(f[i]) as int);
      assert forall i :: 0 <= i < |f| && Decimal.IsDecimalText(f[i]) ==> pages[i] == Decimal.Parse(f[i]);
      Some(pages)
    else None
  }

  function ParseRules(lines: seq<seq<char>>): (r: Option<seq<Edge>>)
    ensures r.Some? ==> |r.value| == |lines|
  {
    if |lines| == 0 then Some([])
    else
      var prev := ParseRules(lines[..|lines| - 1]);
      var last := ParseRule(lines[|lines| - 1]);
      if prev.None? || last.None? then None else Some(prev.value + [last.value])
  }

  function ParseUpdates(lines: seq<seq<char>>): (r: Option<seq<seq<int>>>)
    ensures r.Some? ==> |r.value| == |lines|
  {
    if |lines| == 0 then Some([])
    else
      var prev := ParseUpdates(lines[..|lines| - 1]);
      var last := ParseUpdate(lines[|lines| - 1]);
      if prev.None? || last.None? then None else Some(prev.value + [last.value])
  }

  function Parse(input: seq<char>): Option<(seq<Edge>, seq<seq<int>>)>
  {
    match SplitAtBlank(Text.Lines(input))
    case None => None
    case Some((ruleLines, updateLines)) =>
      match (ParseRules(ruleLines), ParseUpdates(updateLines))
      case (Some(rules), Some(updates)) => Some((rules, updates))
      case _ => None
  }

  /** `part1`: defined when the input parses and every accepted update is
      non-empty; then the sum of the accepted updates' middle pages. */
  function Part1(input: seq<char>): (r: Option<int>)
    ensures r.Some? <==> (Parse(input).Some? &&
      forall u :: u in Accepted(Parse(input).value.0, Parse(input).value.1) ==> |u| > 0)
    ensures r.Some? ==> r.value == SumMiddles(Accepted(Parse(input).value.0, Parse(input).value.1))
  {
    match Parse(input)
    case None => None
    case Some((rules, updates)) =>
      SumOrderedMiddles(rules, updates);
      SumOrdered(rules, updates)
  }

  /** `part2`, also returning the order Kahn's algorithm found for each
      update: a topological order of the update's own rules. The value is
      the sum of the middle pages of the orders that differ from their
      update, and is undefined when such an order is empty. */
  method Part2(input: seq<char>) returns (r: Option<int>, orders: seq<seq<int>>)
    ensures Parse(input).None? ==> r.None?
    ensures Parse(input).Some? ==> var (rules, updates) := Parse(input).value;
      && |orders| == |updates|
      && (forall i :: 0 <= i < |updates| ==> IsTopOrder(Subgraph(rules, updates[i]), orders[i]))
      && (r.Some? <==> forall o :: o in Changed(updates, orders) ==> |o| > 0)
      && (r.Some? ==> r.value == SumMiddles(Changed(updates, orders)))
  {
    match Parse(input)
    case None =>
      r, orders := None, [];
    case Some((rules, updates)) =>
      r, orders := ReorderSum(rules, updates);
  }
}
