/** The lazy-deletion Dijkstra search that days 16 and 18 share: a heap
    of (cost, state) entries, a table of best known costs, stale entries
    skipped when popped, and the search stopping at the first pop of the
    goal. The graph is a function from a state to its outgoing edges,
    `None` where computing them panics in the source. */
module ShortestPath {
  import opened Common

  datatype Edge<S> = Edge(cost: nat, target: S)

  /** A heap entry: a tentative cost and the state it reaches. */
  datatype Entry<S> = Entry(cost: nat, node: S)

  /** `Some(cost)`, `None` (the heap ran dry) or a panic on the way. */
  datatype Outcome = Found(cost: nat) | Unreachable | Panicked

  /** Where a walk of `steps` from `from` ends. */
  function EndOf<S>(from: S, steps: seq<Edge<S>>): S
  {
    if |steps| == 0 then from else steps[|steps| - 1].target
  }

  /** `steps` follow edges of `graph` one after the other from `from`. */
  ghost predicate Walk<S>(graph: S -> Option<seq<Edge<S>>>, from: S, steps: seq<Edge<S>>)
    decreases |steps|
  {
    |steps| == 0 ||
    (Walk(graph, from, steps[..|steps| - 1]) &&
     var u := EndOf(from, steps[..|steps| - 1]);
     graph(u).Some? && steps[|steps| - 1] in graph(u).value)
  }

  /** The total cost of a walk. */
  function Cost<S>(steps: seq<Edge<S>>): nat
  {
    if |steps| == 0 then 0 else Cost(steps[..|steps| - 1]) + steps[|steps| - 1].cost
  }

  /** Extending a walk by one edge out of its end. */
  lemma WalkSnoc<S>(graph: S -> Option<seq<Edge<S>>>, from: S, steps: seq<Edge<S>>, e: Edge<S>)
    requires Walk(graph, from, steps)
    requires graph(EndOf(from, steps)).Some? && e in graph(EndOf(from, steps)).value
    ensures Walk(graph, from, steps + [e]) && EndOf(from, steps + [e]) == e.target
    ensures Cost(steps + [e]) == Cost(steps) + e.cost
  {
    assert (steps + [e])[..|steps|] == steps;
  }

  /** Some walk from `from` reaches `to` at total cost `c`. */
  ghost predicate Reaches<S(!new)>(graph: S -> Option<seq<Edge<S>>>, from: S, to: S, c: nat)
  {
    exists steps :: Walk(graph, from, steps) && EndOf(from, steps) == to && Cost(steps) == c
  }

  /** Every edge out of a state of `universe` stays in it and costs at
      most `maxCost`. */
  ghost predicate Closed<S(!new)>(graph: S -> Option<seq<Edge<S>>>, universe: set<S>, maxCost: nat)
  {
    forall s :: s in universe && graph(s).Some? ==>
      forall e :: e in graph(s).value ==> e.target in universe && e.cost <= maxCost
  }

  // ----- the search invariants -----

  /** Each recorded cost is the cost of a walk from the start. */
  ghost predicate Sound<S(!new)>(graph: S -> Option<seq<Edge<S>>>, start: S, dist: map<S, nat>,
                                 paths: map<S, seq<Edge<S>>>)
  {
    forall t :: t in dist ==>
      (t in paths && Walk(graph, start, paths[t]) && EndOf(start, paths[t]) == t && Cost(paths[t]) == dist[t])
  }

  /** Every heap entry is for a recorded state, costs at least its
      recorded cost, and no less than the last cost popped. */
  ghost predicate Queued<S(!new)>(dist: map<S, nat>, heap: seq<Entry<S>>, floor: nat)
  {
    forall x :: x in heap ==> x.node in dist && dist[x.node] <= x.cost && floor <= x.cost
  }

  /** A recorded state not yet expanded waits in the heap at its recorded
      cost. */
  ghost predicate Pending<S(!new)>(dist: map<S, nat>, done: set<S>, heap: seq<Entry<S>>)
  {
    forall t :: t in dist && t !in done ==> Entry(dist[t], t) in heap
  }

  /** Through `edges`, no recorded cost exceeds `base` plus the edge. */
  ghost predicate Relaxed<S(!new)>(dist: map<S, nat>, edges: seq<Edge<S>>, base: nat)
  {
    forall e :: e in edges ==> e.target in dist && dist[e.target] <= base + e.cost
  }

  /** Expanded states: recorded, no dearer than the last pop, and every
      edge out of them relaxed. */
  ghost predicate Settled<S(!new)>(graph: S -> Option<seq<Edge<S>>>, dist: map<S, nat>, done: set<S>, floor: nat)
  {
    forall u :: u in done ==> u in dist && dist[u] <= floor && graph(u).Some? && Relaxed(dist, graph(u).value, dist[u])
  }

  /** Waiting states cost at most one edge more than the last pop. */
  ghost predicate Capped<S(!new)>(dist: map<S, nat>, done: set<S>, floor: nat, maxCost: nat)
  {
    forall t :: t in dist && t !in done ==> dist[t] <= floor + maxCost
  }

  /** A walk cheaper than every waiting entry ends at an expanded state,
      and the recorded cost there is no more than the walk's: the heart
      of Dijkstra's correctness. */
  lemma {:induction false} Bound<S(!new)>(graph: S -> Option<seq<Edge<S>>>, start: S, dist: map<S, nat>, done: set<S>,
                                    heap: seq<Entry<S>>, floor: nat, steps: seq<Edge<S>>)
    requires start in dist && dist[start] == 0
    requires Queued(dist, heap, floor) && Pending(dist, done, heap) && Settled(graph, dist, done, floor)
    requires Walk(graph, start, steps) && Cost(steps) < floor
    ensures EndOf(start, steps) in done && dist[EndOf(start, steps)] <= Cost(steps)
    decreases |steps|
  {
    if |steps| > 0 {
      var init, e := steps[..|steps| - 1], steps[|steps| - 1];
      Bound(graph, start, dist, done, heap, floor, init);
      var u, t := EndOf(start, init), e.target;
      assert e in graph(u).value;
      assert dist[t] <= Cost(steps);
    }
  }

  /** With nothing left in the heap, every walk from the start ends at an
      expanded state. */
  lemma Exhausted<S(!new)>(graph: S -> Option<seq<Edge<S>>>, start: S, dist: map<S, nat>, done: set<S>,
                     floor: nat, steps: seq<Edge<S>>)
    requires start in dist && dist[start] == 0
    requires Pending(dist, done, []) && Settled(graph, dist, done, floor)
    requires Walk(graph, start, steps)
    ensures EndOf(start, steps) in done
  {
    var high := floor + Cost(steps) + 1;
    assert Settled(graph, dist, done, high);
    Bound(graph, start, dist, done, [], high, steps);
  }

  // ----- termination -----

  /** What a state still stands to contribute: nothing once expanded,
      the room left above the last pop while waiting, `cap` while
      unseen. */
  ghost function Pot<S(!new)>(dist: map<S, nat>, done: set<S>, floor: nat, cap: nat, t: S): nat
  {
    if t in done then 0
    else if t in dist then (if dist[t] >= floor then dist[t] - floor + 1 else 0)
    else cap
  }

  /** Some element of a non-empty set, the same one every time. */
  ghost function Pick<S>(s: set<S>): (x: S)
    requires s != {}
    ensures x in s
  {
    var x :| x in s; x
  }

  ghost function Total<S(!new)>(universe: set<S>, dist: map<S, nat>, done: set<S>, floor: nat, cap: nat): nat
    decreases universe
  {
    if universe == {} then 0
    else
      var t := Pick(universe);
      Pot(dist, done, floor, cap, t) + Total(universe - {t}, dist, done, floor, cap)
  }

  /** Potentials lower at every state give a lower total, strictly lower
      when one of them drops. */
  lemma {:induction false} TotalMono<S(!new)>(universe: set<S>, cap: nat,
                                        d1: map<S, nat>, done1: set<S>, f1: nat,
                                        d2: map<S, nat>, done2: set<S>, f2: nat, drop: Option<S>)
    requires forall t :: t in universe ==> Pot(d1, done1, f1, cap, t) <= Pot(d2, done2, f2, cap, t)
    requires drop.Some? ==>
      (drop.value in universe && Pot(d1, done1, f1, cap, drop.value) < Pot(d2, done2, f2, cap, drop.value))
    ensures Total(universe, d1, done1, f1, cap) <= Total(universe, d2, done2, f2, cap)
    ensures drop.Some? ==> Total(universe, d1, done1, f1, cap) < Total(universe, d2, done2, f2, cap)
    decreases universe
  {
    if universe != {} {
      var t := Pick(universe);
      var rest := universe - {t};
      var drop' := if drop.Some? && drop.value != t then drop else None;
      TotalMono(rest, cap, d1, done1, f1, d2, done2, f2, drop');
    }
  }

  // ----- the search -----

  /** The invariant of the search loop. */
  ghost predicate Searching<S(!new)>(graph: S -> Option<seq<Edge<S>>>, start: S, goal: S, universe: set<S>, maxCost: nat,
                                     dist: map<S, nat>, heap: seq<Entry<S>>, paths: map<S, seq<Edge<S>>>,
                                     done: set<S>, floor: nat)
  {
    dist.Keys <= universe && done <= dist.Keys &&
    start in dist && dist[start] == 0 && goal !in done &&
    Sound(graph, start, dist, paths) &&
    Queued(dist, heap, floor) && Pending(dist, done, heap) &&
    Settled(graph, dist, done, floor) && Capped(dist, done, floor, maxCost)
  }

  /** The position of a cheapest heap entry; which of several equally
      cheap entries is popped first does not change any result. */
  function MinIndex<S>(heap: seq<Entry<S>>): (k: nat)
    requires |heap| > 0
    ensures k < |heap| && forall x :: x in heap ==> heap[k].cost <= x.cost
  {
    if |heap| == 1 then 0
    else
      var k := MinIndex(heap[1..]);
      assert forall x :: x in heap ==> x == heap[0] || x in heap[1..];
      if heap[0].cost <= heap[1..][k].cost then 0 else k + 1
  }

  /** The heap without entry `k`. */
  function Remove<S>(heap: seq<Entry<S>>, k: nat): (r: seq<Entry<S>>)
    requires k < |heap|
    ensures |r| == |heap| - 1
    ensures forall x :: x in r ==> x in heap
    ensures forall x :: x in heap && x != heap[k] ==> x in r
  {
    assert heap == heap[..k] + [heap[k]] + heap[k + 1..];
    heap[..k] + heap[k + 1..]
  }

  /** Recorded costs only go down, and no recorded state is forgotten. */
  ghost predicate Lower<S(!new)>(dist: map<S, nat>, dist': map<S, nat>)
  {
    dist.Keys <= dist'.Keys && forall t :: t in dist ==> dist'[t] <= dist[t]
  }

  /** `t` got a new recorded cost. */
  ghost predicate Changed<S>(dist: map<S, nat>, dist': map<S, nat>, t: S)
  {
    t in dist' && !(t in dist && dist'[t] == dist[t])
  }

  /** Every changed state was offered from a pop at cost `c`, within one
      edge of it, and waits in the heap at its new cost. */
  ghost predicate Offered<S(!new)>(dist: map<S, nat>, dist': map<S, nat>, heap': seq<Entry<S>>, c: nat, maxCost: nat)
  {
    forall t :: Changed(dist, dist', t) ==> c <= dist'[t] <= c + maxCost && Entry(dist'[t], t) in heap'
  }

  /** `heap'` keeps `heap` and adds only entries no cheaper than `c` for
      recorded states. */
  ghost predicate Grown<S(!new)>(heap: seq<Entry<S>>, heap': seq<Entry<S>>, dist': map<S, nat>, c: nat)
  {
    (forall x :: x in heap ==> x in heap') &&
    forall x :: x in heap' && x !in heap ==> x.node in dist' && dist'[x.node] <= x.cost && c <= x.cost
  }

  /** The `for edge in edges` loop: every edge that offers a cheaper way
      to its target records it, pushes the target, and extends the walk
      to it. Recorded costs only ever go down. `changed` names a state
      whose cost changed, if any did. */
  method Relax<S(!new)>(ghost graph: S -> Option<seq<Edge<S>>>, ghost start: S, edges: seq<Edge<S>>, s: S, c: nat,
                  dist: map<S, nat>, heap: seq<Entry<S>>, ghost paths: map<S, seq<Edge<S>>>,
                  ghost universe: set<S>, ghost maxCost: nat)
    returns (dist': map<S, nat>, heap': seq<Entry<S>>, ghost paths': map<S, seq<Edge<S>>>, ghost changed: Option<S>)
    requires s in dist && dist[s] == c && graph(s) == Some(edges)
    requires Sound(graph, start, dist, paths) && dist.Keys <= universe
    requires forall e :: e in edges ==> e.cost <= maxCost && e.target in universe
    ensures Sound(graph, start, dist', paths') && dist'.Keys <= universe
    ensures Relaxed(dist', edges, c) && s in dist' && dist'[s] == c
    ensures Lower(dist, dist') && Offered(dist, dist', heap', c, maxCost) && Grown(heap, heap', dist', c)
    ensures changed.None? ==> dist' == dist && heap' == heap
    ensures changed.Some? ==> Changed(dist, dist', changed.value)
  {
    ghost var base := paths[s];
    assert Walk(graph, start, base) && EndOf(start, base) == s && Cost(base) == c;
    dist', heap', paths', changed := dist, heap, paths, None;
    for k := 0 to |edges|
      invariant Progress(graph, start, s, c, edges[..k], universe, maxCost, dist, heap, dist', heap', paths', changed)
    {
      PrefixSnoc(edges, k);
      assert edges[k] in edges;
      dist', heap', paths', changed := RelaxEdge(graph, start, s, c, edges[..k], edges[k], universe, maxCost, dist, heap,
                                                 dist', heap', paths', changed, base);
    }
    assert edges[..|edges|] == edges;
  }

  /** One round of the `for edge in edges` loop: take up the offer `e`
      makes when it is cheaper than the recorded cost of its target. */
  method RelaxEdge<S(!new)>(ghost graph: S -> Option<seq<Edge<S>>>, ghost start: S, s: S, c: nat,
                            ghost done: seq<Edge<S>>, e: Edge<S>, ghost universe: set<S>, ghost maxCost: nat,
                            ghost dist: map<S, nat>, ghost heap: seq<Entry<S>>,
                            dist': map<S, nat>, heap': seq<Entry<S>>, ghost paths': map<S, seq<Edge<S>>>,
                            ghost changed: Option<S>, ghost base: seq<Edge<S>>)
    returns (dist'': map<S, nat>, heap'': seq<Entry<S>>, ghost paths'': map<S, seq<Edge<S>>>, ghost changed': Option<S>)
    requires Progress(graph, start, s, c, done, universe, maxCost, dist, heap, dist', heap', paths', changed)
    requires e.cost <= maxCost && e.target in universe
    requires Walk(graph, start, base) && EndOf(start, base) == s && Cost(base) == c
    requires graph(s).Some? && e in graph(s).value
    ensures Progress(graph, start, s, c, done + [e], universe, maxCost, dist, heap, dist'', heap'', paths'', changed')
    ensures e.target in dist'' && dist''[e.target] <= c + e.cost
  {
    var d := c + e.cost;
    if e.target !in dist' || d < dist'[e.target] {
      ghost var walk := base + [e];
      dist'', heap'' := dist'[e.target := d], heap' + [Entry(d, e.target)];
      paths'' := paths'[e.target := walk];
      ProgressOffer(graph, start, s, c, done, e, done + [e], universe, maxCost, dist, heap,
                    dist', heap', paths', changed, base, walk, dist'', heap'', paths'');
      changed' := Some(e.target);
    } else {
      ProgressSkip(graph, start, s, c, done, e, done + [e], universe, maxCost, dist, heap, dist', heap', paths', changed);
      dist'', heap'', paths'', changed' := dist', heap', paths', changed;
    }
  }

  /** What the `for edge in edges` loop keeps after looking at `done`. */
  ghost predicate Progress<S(!new)>(graph: S -> Option<seq<Edge<S>>>, start: S, s: S, c: nat, done: seq<Edge<S>>,
                                    universe: set<S>, maxCost: nat, dist: map<S, nat>, heap: seq<Entry<S>>,
                                    dist': map<S, nat>, heap': seq<Entry<S>>, paths': map<S, seq<Edge<S>>>,
                                    changed: Option<S>)
  {
    Sound(graph, start, dist', paths') && dist'.Keys <= universe &&
    Relaxed(dist', done, c) && s in dist' && dist'[s] == c &&
    Lower(dist, dist') && Offered(dist, dist', heap', c, maxCost) && Grown(heap, heap', dist', c) &&
    (changed.None? ==> dist' == dist && heap' == heap) &&
    (changed.Some? ==> Changed(dist, dist', changed.value))
  }

  /** Taking up a cheaper offer through `e` keeps the loop's promises. */
  lemma ProgressOffer<S(!new)>(graph: S -> Option<seq<Edge<S>>>, start: S, s: S, c: nat, done: seq<Edge<S>>, e: Edge<S>,
                               done': seq<Edge<S>>,
                               universe: set<S>, maxCost: nat, dist: map<S, nat>, heap: seq<Entry<S>>,
                               dist': map<S, nat>, heap': seq<Entry<S>>, paths': map<S, seq<Edge<S>>>,
                               changed: Option<S>, base: seq<Edge<S>>, walk: seq<Edge<S>>,
                               dist'': map<S, nat>, heap'': seq<Entry<S>>, paths'': map<S, seq<Edge<S>>>)
    requires Progress(graph, start, s, c, done, universe, maxCost, dist, heap, dist', heap', paths', changed)
    requires e.cost <= maxCost && e.target in universe && (e.target !in dist' || c + e.cost < dist'[e.target])
    requires Walk(graph, start, base) && EndOf(start, base) == s && Cost(base) == c
    requires graph(s).Some? && e in graph(s).value && walk == base + [e]
    requires done' == done + [e] && dist'' == dist'[e.target := c + e.cost]
    requires heap'' == heap' + [Entry(c + e.cost, e.target)] && paths'' == paths'[e.target := walk]
    ensures Progress(graph, start, s, c, done', universe, maxCost, dist, heap, dist'', heap'', paths'', Some(e.target))
  {
    var d := c + e.cost;
    WalkSnoc(graph, start, base, e);
    SoundRecord(graph, start, dist', paths', e.target, walk, d);
    OfferRelaxed(dist', done, e, s, c);
    OfferTables(e, c, dist, heap, dist', heap', maxCost);
  }

  /** Passing over an edge that offers nothing cheaper keeps the loop's
      promises. */
  lemma ProgressSkip<S(!new)>(graph: S -> Option<seq<Edge<S>>>, start: S, s: S, c: nat, done: seq<Edge<S>>, e: Edge<S>,
                              done': seq<Edge<S>>,
                              universe: set<S>, maxCost: nat, dist: map<S, nat>, heap: seq<Entry<S>>,
                              dist': map<S, nat>, heap': seq<Entry<S>>, paths': map<S, seq<Edge<S>>>,
                              changed: Option<S>)
    requires Progress(graph, start, s, c, done, universe, maxCost, dist, heap, dist', heap', paths', changed)
    requires e.target in dist' && dist'[e.target] <= c + e.cost && done' == done + [e]
    ensures Progress(graph, start, s, c, done', universe, maxCost, dist, heap, dist', heap', paths', changed)
  {
    RelaxedSnoc(dist', done, e, c);
  }

  /** Recording a walk's cost for the state it ends at keeps the table
      sound. */
  lemma SoundRecord<S(!new)>(graph: S -> Option<seq<Edge<S>>>, start: S, dist: map<S, nat>,
                             paths: map<S, seq<Edge<S>>>, t: S, walk: seq<Edge<S>>, d: nat)
    requires Sound(graph, start, dist, paths)
    requires Walk(graph, start, walk) && EndOf(start, walk) == t && Cost(walk) == d
    ensures Sound(graph, start, dist[t := d], paths[t := walk])
  {
    var dist', paths' := dist[t := d], paths[t := walk];
    forall u | u in dist'
      ensures u in paths' && Walk(graph, start, paths'[u]) && EndOf(start, paths'[u]) == u && Cost(paths'[u]) == dist'[u]
    {
      if u != t {
        assert dist'[u] == dist[u] && paths'[u] == paths[u];
      }
    }
  }

  /** Recording a cheaper offer through `e` keeps the edges already
      looked at relaxed and relaxes `e`. */
  lemma OfferRelaxed<S(!new)>(dist: map<S, nat>, done: seq<Edge<S>>, e: Edge<S>, s: S, c: nat)
    requires e.target !in dist || c + e.cost < dist[e.target]
    requires Relaxed(dist, done, c) && s in dist && dist[s] == c
    ensures var dist' := dist[e.target := c + e.cost];
      Relaxed(dist', done + [e], c) && s in dist' && dist'[s] == c
  {
    var dist' := dist[e.target := c + e.cost];
    forall x | x in done + [e]
      ensures x.target in dist' && dist'[x.target] <= c + x.cost
    {
      if x != e {
        assert x in done;
      }
    }
  }

  /** An edge that offers nothing cheaper is already relaxed. */
  lemma RelaxedSnoc<S(!new)>(dist: map<S, nat>, done: seq<Edge<S>>, e: Edge<S>, c: nat)
    requires Relaxed(dist, done, c) && e.target in dist && dist[e.target] <= c + e.cost
    ensures Relaxed(dist, done + [e], c)
  {
    forall x | x in done + [e]
      ensures x.target in dist && dist[x.target] <= c + x.cost
    {
      if x != e {
        assert x in done;
      }
    }
  }

  /** Recording and queueing a cheaper offer through `e` keeps the
      bookkeeping `Relax` promises about the tables it was given. */
  lemma OfferTables<S(!new)>(e: Edge<S>, c: nat, dist: map<S, nat>, heap: seq<Entry<S>>,
                             dist': map<S, nat>, heap': seq<Entry<S>>, maxCost: nat)
    requires e.cost <= maxCost && (e.target !in dist' || c + e.cost < dist'[e.target])
    requires Lower(dist, dist') && Offered(dist, dist', heap', c, maxCost) && Grown(heap, heap', dist', c)
    ensures var d := c + e.cost; var dist'' := dist'[e.target := d]; var heap'' := heap' + [Entry(d, e.target)];
      Lower(dist, dist'') && Offered(dist, dist'', heap'', c, maxCost) && Grown(heap, heap'', dist'', c) &&
      Changed(dist, dist'', e.target)
  {
    var d := c + e.cost;
    var dist'', heap'' := dist'[e.target := d], heap' + [Entry(d, e.target)];
    assert Offered(dist, dist'', heap'', c, maxCost) by {
      forall t | Changed(dist, dist'', t)
        ensures c <= dist''[t] <= c + maxCost && Entry(dist''[t], t) in heap''
      {
        if t != e.target {
          assert Changed(dist, dist', t);
        }
      }
    }
    assert Grown(heap, heap'', dist'', c) by {
      forall x | x in heap'' && x !in heap
        ensures x.node in dist'' && dist''[x.node] <= x.cost && c <= x.cost
      {
        if x != Entry(d, e.target) {
          assert x in heap';
        }
      }
    }
  }

  /** `dijkstra`: pop the cheapest entry; stop at the goal; skip an entry
      dearer than the recorded cost; otherwise relax the edges out of it.
      The answer is the cost of a cheapest walk to the goal, the search
      reports the goal unreachable only when no walk reaches it, and it
      panics only at a state some walk reaches.
      `universe` and `maxCost` bound the search for its termination
      argument only. */
  method Shortest<S(==,!new)>(graph: S -> Option<seq<Edge<S>>>, start: S, goal: S,
                         ghost universe: set<S>, ghost maxCost: nat)
    returns (r: Outcome)
    requires start in universe && Closed(graph, universe, maxCost)
    ensures r.Found? ==> Reaches(graph, start, goal, r.cost)
    ensures r.Found? ==> forall steps :: Walk(graph, start, steps) && EndOf(start, steps) == goal ==> r.cost <= Cost(steps)
    ensures r.Unreachable? ==> forall steps :: Walk(graph, start, steps) ==> EndOf(start, steps) != goal
    ensures r.Panicked? ==> exists steps :: Walk(graph, start, steps) && graph(EndOf(start, steps)).None?
  {
    var dist := map[start := 0];
    var heap := [Entry(0, start)];
    ghost var paths: map<S, seq<Edge<S>>> := map[start := []];
    ghost var done: set<S> := {};
    ghost var floor: nat := 0;
    ghost var cap := maxCost + 2;
    while |heap| > 0
      invariant Searching(graph, start, goal, universe, maxCost, dist, heap, paths, done, floor)
      decreases Total(universe, dist, done, floor, cap), |heap|
    {
      var stop;
      dist, heap, paths, done, floor, stop := Visit(graph, start, goal, universe, maxCost, dist, heap, paths, done, floor);
      if stop.Some? {
        return stop.value;
      }
    }
    forall steps | Walk(graph, start, steps)
      ensures EndOf(start, steps) != goal
    {
      Exhausted(graph, start, dist, done, floor, steps);
    }
    return Unreachable;
  }

  /** What the search promises once it stops with `r`. */
  ghost predicate Answers<S(!new)>(graph: S -> Option<seq<Edge<S>>>, start: S, goal: S, r: Outcome)
  {
    (r.Found? ==> Reaches(graph, start, goal, r.cost)) &&
    (r.Found? ==> forall steps :: Walk(graph, start, steps) && EndOf(start, steps) == goal ==> r.cost <= Cost(steps)) &&
    (r.Unreachable? ==> forall steps :: Walk(graph, start, steps) ==> EndOf(start, steps) != goal) &&
    (r.Panicked? ==> exists steps :: Walk(graph, start, steps) && graph(EndOf(start, steps)).None?)
  }

  /** One turn of the search loop: pop the cheapest entry, then stop at
      the goal, drop a stale entry, or expand the state. A turn that does
      not stop keeps the invariant and lowers the termination measure. */
  method Visit<S(==,!new)>(graph: S -> Option<seq<Edge<S>>>, start: S, goal: S, ghost universe: set<S>, ghost maxCost: nat,
                           dist: map<S, nat>, heap: seq<Entry<S>>, ghost paths: map<S, seq<Edge<S>>>,
                           ghost done: set<S>, ghost floor: nat)
    returns (dist': map<S, nat>, heap': seq<Entry<S>>, ghost paths': map<S, seq<Edge<S>>>,
             ghost done': set<S>, ghost floor': nat, stop: Option<Outcome>)
    requires |heap| > 0 && Closed(graph, universe, maxCost)
    requires Searching(graph, start, goal, universe, maxCost, dist, heap, paths, done, floor)
    ensures stop.Some? ==> !stop.value.Unreachable? && Answers(graph, start, goal, stop.value)
    ensures stop.None? ==> Searching(graph, start, goal, universe, maxCost, dist', heap', paths', done', floor')
    ensures stop.None? ==>
      var cap := maxCost + 2;
      Total(universe, dist', done', floor', cap) < Total(universe, dist, done, floor, cap) ||
      (Total(universe, dist', done', floor', cap) == Total(universe, dist, done, floor, cap) && |heap'| < |heap|)
  {
    ghost var cap := maxCost + 2;
    dist', heap', paths', done', floor', stop := dist, heap, paths, done, floor, None;
    var k := MinIndex(heap);
    var entry := heap[k];
    var c, s := entry.cost, entry.node;
    if s == goal {
      FoundGoal(graph, start, goal, dist, done, heap, paths, floor, k);
      stop := Some(Found(c));
      return;
    }
    var rest := Remove(heap, k);
    if c > dist[s] {
      SkipKeeps(graph, start, goal, universe, dist, done, heap, paths, floor, maxCost, k);
      PopFloor(universe, cap, dist, done, heap, floor, c);
      heap', floor' := rest, c;
      return;
    }
    var edges := graph(s);
    if edges.None? {
      assert Walk(graph, start, paths[s]) && EndOf(start, paths[s]) == s;
      stop := Some(Panicked);
      return;
    }
    ghost var changed;
    dist', heap', paths', changed := Relax(graph, start, edges.value, s, c, dist, rest, paths, universe, maxCost);
    ExpandKeeps(graph, start, goal, universe, maxCost, dist, done, heap, paths, floor, k, dist', heap', paths');
    ExpandMeasure(universe, maxCost, dist, done, heap, floor, k, dist', heap', changed);
    done', floor' := done + {s}, c;
  }

  /** Popping the goal: its entry's cost is the cost of a cheapest walk. */
  lemma FoundGoal<S(!new)>(graph: S -> Option<seq<Edge<S>>>, start: S, goal: S, dist: map<S, nat>, done: set<S>,
                     heap: seq<Entry<S>>, paths: map<S, seq<Edge<S>>>, floor: nat, k: nat)
    requires k < |heap| && heap[k].node == goal && forall x :: x in heap ==> heap[k].cost <= x.cost
    requires start in dist && dist[start] == 0 && goal !in done
    requires Sound(graph, start, dist, paths)
    requires Queued(dist, heap, 0) && Pending(dist, done, heap)
    requires Settled(graph, dist, done, floor) && floor <= heap[k].cost
    ensures Reaches(graph, start, goal, heap[k].cost)
    ensures forall steps :: Walk(graph, start, steps) && EndOf(start, steps) == goal ==> heap[k].cost <= Cost(steps)
  {
    var c := heap[k].cost;
    assert Queued(dist, heap, c);
    assert Settled(graph, dist, done, c);
    forall steps | Walk(graph, start, steps) && EndOf(start, steps) == goal
      ensures c <= Cost(steps)
    {
      if Cost(steps) < c {
        Bound(graph, start, dist, done, heap, c, steps);
      }
    }
    assert heap[k] in heap;
    assert c <= Cost(paths[goal]);
  }

  /** A stale entry is dropped and nothing else changes. */
  lemma SkipKeeps<S(!new)>(graph: S -> Option<seq<Edge<S>>>, start: S, goal: S, universe: set<S>,
                     dist: map<S, nat>, done: set<S>,
                     heap: seq<Entry<S>>, paths: map<S, seq<Edge<S>>>, floor: nat, maxCost: nat, k: nat)
    requires k < |heap| && forall x :: x in heap ==> heap[k].cost <= x.cost
    requires heap[k].node in dist && heap[k].cost > dist[heap[k].node]
    requires Searching(graph, start, goal, universe, maxCost, dist, heap, paths, done, floor)
    ensures Searching(graph, start, goal, universe, maxCost, dist, Remove(heap, k), paths, done, heap[k].cost)
  {
    assert heap[k] in heap;
  }

  /** Raising the floor to a popped cost lowers no potential. */
  lemma PopFloor<S(!new)>(universe: set<S>, cap: nat, dist: map<S, nat>, done: set<S>, heap: seq<Entry<S>>,
                    floor: nat, c: nat)
    requires floor <= c && Pending(dist, done, heap) && forall x :: x in heap ==> c <= x.cost
    ensures Total(universe, dist, done, c, cap) <= Total(universe, dist, done, floor, cap)
  {
    forall t | t in universe
      ensures Pot(dist, done, c, cap, t) <= Pot(dist, done, floor, cap, t)
    {
      if t in dist && t !in done {
        assert Entry(dist[t], t) in heap;
      }
    }
    TotalMono(universe, cap, dist, done, c, dist, done, floor, None);
  }

  /** Expanding a popped state keeps every invariant. */
  lemma ExpandKeeps<S(!new)>(graph: S -> Option<seq<Edge<S>>>, start: S, goal: S, universe: set<S>, maxCost: nat,
                       dist: map<S, nat>, done: set<S>, heap: seq<Entry<S>>, paths: map<S, seq<Edge<S>>>,
                       floor: nat, k: nat, dist': map<S, nat>, heap': seq<Entry<S>>, paths': map<S, seq<Edge<S>>>)
    requires k < |heap| && forall x :: x in heap ==> heap[k].cost <= x.cost
    requires var s := heap[k].node; s != goal && s in dist && dist[s] == heap[k].cost && graph(s).Some?
    requires Searching(graph, start, goal, universe, maxCost, dist, heap, paths, done, floor)
    // what `Relax` promises
    requires Sound(graph, start, dist', paths') && dist'.Keys <= universe
    requires var s, c := heap[k].node, heap[k].cost;
      Relaxed(dist', graph(s).value, c) && s in dist' && dist'[s] == c &&
      Lower(dist, dist') && Offered(dist, dist', heap', c, maxCost) && Grown(Remove(heap, k), heap', dist', c)
    ensures Searching(graph, start, goal, universe, maxCost, dist', heap', paths', done + {heap[k].node}, heap[k].cost)
  {
    var s, c, rest := heap[k].node, heap[k].cost, Remove(heap, k);
    var done' := done + {s};
    assert heap[k] in heap;
    assert Queued(dist', heap', c) by {
      forall x | x in heap'
        ensures x.node in dist' && dist'[x.node] <= x.cost && c <= x.cost
      {
        if x in rest {
          assert x in heap;
        }
      }
    }
    assert Pending(dist', done', heap') by {
      forall t | t in dist' && t !in done'
        ensures Entry(dist'[t], t) in heap'
      {
        if !Changed(dist, dist', t) {
          assert Entry(dist[t], t) in heap;
          assert Entry(dist[t], t) != heap[k];
        }
      }
    }
    assert Settled(graph, dist', done', c) by {
      forall u | u in done'
        ensures u in dist' && dist'[u] <= c && graph(u).Some? && Relaxed(dist', graph(u).value, dist'[u])
      {
        if u != s {
          // expanded no dearer than the pop, so nothing cheaper was offered
          assert !Changed(dist, dist', u);
          assert Relaxed(dist', graph(u).value, dist'[u]) by {
            forall e | e in graph(u).value
              ensures e.target in dist' && dist'[e.target] <= dist'[u] + e.cost
            {
              assert e.target in dist;
            }
          }
        }
      }
    }
    assert Capped(dist', done', c, maxCost) by {
      forall t | t in dist' && t !in done'
        ensures dist'[t] <= c + maxCost
      {
        if !Changed(dist, dist', t) {
          assert Entry(dist[t], t) in heap;
        }
      }
    }
  }

  /** Expanding a popped state lowers the termination measure: the
      popped state's potential drops, or a newly offered state's does,
      or nothing changes and the heap shrinks. */
  lemma ExpandMeasure<S(!new)>(universe: set<S>, maxCost: nat,
                       dist: map<S, nat>, done: set<S>, heap: seq<Entry<S>>, floor: nat, k: nat,
                       dist': map<S, nat>, heap': seq<Entry<S>>, changed: Option<S>)
    requires k < |heap| && forall x :: x in heap ==> heap[k].cost <= x.cost
    requires var s := heap[k].node; s in universe && s in dist && dist[s] == heap[k].cost
    requires dist'.Keys <= universe && done <= dist.Keys
    requires Queued(dist, heap, floor) && Pending(dist, done, heap)
    requires forall v :: v in done ==> v in dist && dist[v] <= floor
    requires var s, c := heap[k].node, heap[k].cost;
      s in dist' && dist'[s] == c && Lower(dist, dist') && Offered(dist, dist', heap', c, maxCost)
    requires changed.None? ==> dist' == dist && heap' == Remove(heap, k)
    requires changed.Some? ==> Changed(dist, dist', changed.value)
    ensures var s, c := heap[k].node, heap[k].cost; var cap := maxCost + 2;
      Total(universe, dist', done + {s}, c, cap) < Total(universe, dist, done, floor, cap) ||
      (Total(universe, dist', done + {s}, c, cap) == Total(universe, dist, done, floor, cap) && |heap'| < |heap|)
  {
    var s, c := heap[k].node, heap[k].cost;
    var done', cap := done + {s}, maxCost + 2;
    assert heap[k] in heap;
    forall t | t in universe
      ensures Pot(dist', done', c, cap, t) <= Pot(dist, done, floor, cap, t)
    {
      if t in dist && t !in done {
        assert Entry(dist[t], t) in heap;
      }
    }
    if s !in done {
      TotalMono(universe, cap, dist', done', c, dist, done, floor, Some(s));
    } else if changed.Some? {
      var t := changed.value;
      if t in dist {
        assert Entry(dist[t], t) in heap;
      }
      TotalMono(universe, cap, dist', done', c, dist, done, floor, changed);
    } else {
      TotalMono(universe, cap, dist', done', c, dist, done, floor, None);
    }
  }

  /** A walk from inside a closed universe never leaves it. */
  lemma {:induction false} WalkInUniverse<S(!new)>(graph: S -> Option<seq<Edge<S>>>, universe: set<S>, maxCost: nat,
                                                    start: S, steps: seq<Edge<S>>)
    requires Closed(graph, universe, maxCost) && start in universe && Walk(graph, start, steps)
    ensures EndOf(start, steps) in universe
    decreases |steps|
  {
    if |steps| > 0 {
      var init := steps[..|steps| - 1];
      WalkInUniverse(graph, universe, maxCost, start, init);
      var u := EndOf(start, init);
      assert graph(u).Some? && steps[|steps| - 1] in graph(u).value;
    }
  }
}
