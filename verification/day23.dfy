/** Day 23: LAN party. Computers are named by two lower-case letters and
    the input lists the direct links between them. Part one counts the
    triangles of linked computers with at least one name starting with
    't'; part two finds the largest set of pairwise linked computers with
    the Bron-Kerbosch algorithm and prints its names, sorted and joined by
    commas. */
module Day23 {
  import opened Common
  import Sorting
  import Text

  /** `DIM`: one slot for every two-letter name. */
  const Dim: nat := 26 * 26

  /** `to_int`: the two bytes of a name, read as base-26 digits. The `u8`
      subtraction panics below 'a', which is `None` here. */
  function ToInt(a: char, b: char): (r: Option<nat>)
    ensures r.Some? <==> a >= 'a' && b >= 'a'
    ensures r.Some? && a <= 'z' && b <= 'z' ==> r.value < Dim && r.value / 26 == a as int - 'a' as int
  {
    if a < 'a' || b < 'a' then None
    else Some((a as int - 'a' as int) * 26 + (b as int - 'a' as int))
  }

  /** `from_int`: the name of an id. The quotient is truncated to a byte
      and the addition to 'a' panics once it passes 255, which is `None`
      here. */
  function FromInt(i: nat): (r: Option<(char, char)>)
    ensures r.Some? <==> (i / 26) % 256 < 159
    ensures r.Some? ==> 'a' <= r.value.0 && 'a' <= r.value.1 <= 'z'
  {
    var high := (i / 26) % 256;
    if 97 + high > 255 then None
    else Some(((97 + high) as char, (97 + i % 26) as char))
  }

  /** Every name of lower-case letters gets an id below `Dim`, and
      `from_int` gives the name back. */
  lemma FromToInt(a: char, b: char)
    requires 'a' <= a <= 'z' && 'a' <= b <= 'z'
    ensures ToInt(a, b).Some? && ToInt(a, b).value < Dim
    ensures FromInt(ToInt(a, b).value) == Some((a, b))
  {
    var i := ToInt(a, b).value;
    assert i / 26 == a as int - 'a' as int && i % 26 == b as int - 'a' as int;
  }

  /** Every id whose name `from_int` can spell is given back by `to_int`. */
  lemma ToFromInt(i: nat)
    requires i < 159 * 26
    ensures FromInt(i).Some?
    ensures ToInt(FromInt(i).value.0, FromInt(i).value.1) == Some(i)
  {
    assert (i / 26) % 256 == i / 26;
  }

  /** The ids in the tests: "aa" is 0, "ab" is 1 and "bb" is 27. */
  lemma ToIntExamples()
    ensures ToInt('a', 'a') == Some(0)
    ensures ToInt('a', 'b') == Some(1)
    ensures ToInt('b', 'b') == Some(27)
    ensures FromInt(5) == Some(('a', 'f'))
    ensures ToInt(FromInt(1234).value.0, FromInt(1234).value.1) == Some(1234)
  {
    ToFromInt(1234);
  }

  /** One input line: the ids of the two linked computers and whether each
      name starts with 't'. */
  datatype Link = Link(a: nat, b: nat, ta: bool, tb: bool)

  /** The fixed byte positions of a line "xy-zw"; a shorter line indexes
      past its end, and a byte below 'a' makes `to_int` panic. */
  function ParseLine(line: seq<char>): (r: Option<Link>)
    ensures r.Some? <==> |line| >= 5 && ToInt(line[0], line[1]).Some? && ToInt(line[3], line[4]).Some?
    ensures r.Some? ==> r.value.a == ToInt(line[0], line[1]).value && r.value.b == ToInt(line[3], line[4]).value
    ensures r.Some? ==> (r.value.ta <==> line[0] == 't') && (r.value.tb <==> line[3] == 't')
  {
    if |line| < 5 then None
    else
      match (ToInt(line[0], line[1]), ToInt(line[3], line[4]))
      case (Some(a), Some(b)) => Some(Link(a, b, line[0] == 't', line[3] == 't'))
      case _ => None
  }

  /** All lines' links, or `None` if some line panics. */
  function Links(lines: seq<seq<char>>): (r: Option<seq<Link>>)
    ensures r.Some? <==> forall k :: 0 <= k < |lines| ==> ParseLine(lines[k]).Some?
    ensures r.Some? ==> |r.value| == |lines| && forall k :: 0 <= k < |lines| ==> r.value[k] == ParseLine(lines[k]).value
  {
    var parsed := seq(|lines|, k requires 0 <= k < |lines| => ParseLine(lines[k]));
    assert forall k :: 0 <= k < |lines| ==> parsed[k] == ParseLine(lines[k]);
    Collect(parsed)
  }

  /** Both ends of every link fit the adjacency table; otherwise indexing
      `adj` panics. */
  predicate InRange(links: seq<Link>)
  {
    forall k :: 0 <= k < |links| ==> links[k].a < Dim && links[k].b < Dim
  }

  /** The input lists the link between `n` and `m`, in either direction. */
  predicate Linked(links: seq<Link>, n: nat, m: nat)
  {
    exists k :: 0 <= k < |links| && ((links[k].a == n && links[k].b == m) || (links[k].a == m && links[k].b == n))
  }

  /** `adj[n]` after the loop: each link `a-b` pushes `b` onto `a`'s list
      and then `a` onto `b`'s, in input order. */
  function Listed(links: seq<Link>, n: nat): (r: seq<nat>)
    ensures forall m :: m in r <==> Linked(links, n, m)
  {
    if |links| == 0 then []
    else
      var front := links[..|links| - 1];
      var last := links[|links| - 1];
      var r := Listed(front, n) + (if last.a == n then [last.b] else []) + (if last.b == n then [last.a] else []);
      LinkedSnoc(front, last, n);
      r
  }

  lemma LinkedSnoc(front: seq<Link>, last: Link, n: nat)
    ensures forall m :: Linked(front + [last], n, m) <==>
      Linked(front, n, m) || (last.a == n && last.b == m) || (last.a == m && last.b == n)
  {
    var links := front + [last];
    forall m | Linked(links, n, m)
      ensures Linked(front, n, m) || (last.a == n && last.b == m) || (last.a == m && last.b == n)
    {
      var k :| 0 <= k < |links| && ((links[k].a == n && links[k].b == m) || (links[k].a == m && links[k].b == n));
      if k < |front| {
        assert links[k] == front[k];
      }
    }
    forall m | Linked(front, n, m) ensures Linked(links, n, m) {
      var k :| 0 <= k < |front| && ((front[k].a == n && front[k].b == m) || (front[k].a == m && front[k].b == n));
      assert links[k] == front[k];
    }
    assert links[|front|] == last;
  }

  /** The adjacency table the solvers build. */
  function Adjacency(links: seq<Link>): (adj: seq<seq<nat>>)
    ensures |adj| == Dim
    ensures forall n :: 0 <= n < Dim ==> adj[n] == Listed(links, n)
  {
    seq(Dim, n requires 0 <= n => Listed(links, n))
  }

  /** `u` and `v` are neighbours in the table. */
  predicate Adjacent(adj: seq<seq<nat>>, u: nat, v: nat)
  {
    u < |adj| && v in adj[u]
  }

  /** An undirected, loop-free table over the ids below `Dim`. */
  ghost predicate Simple(adj: seq<seq<nat>>)
  {
    |adj| == Dim &&
    (forall u: nat, v: nat :: Adjacent(adj, u, v) ==> v < Dim && Adjacent(adj, v, u)) &&
    (forall u: nat :: !Adjacent(adj, u, u))
  }

  /** No line links a computer to itself. */
  predicate LoopFree(links: seq<Link>)
  {
    forall k :: 0 <= k < |links| ==> links[k].a != links[k].b
  }

  /** Pushing both directions makes the table symmetric, and it has no
      loops when no line has one. */
  lemma AdjacencySimple(links: seq<Link>)
    requires InRange(links) && LoopFree(links)
    ensures Simple(Adjacency(links))
  {
    var adj := Adjacency(links);
    forall u: nat, v: nat | Adjacent(adj, u, v) ensures v < Dim && Adjacent(adj, v, u) {
      assert Linked(links, u, v);
      var k :| 0 <= k < |links| && ((links[k].a == u && links[k].b == v) || (links[k].a == v && links[k].b == u));
      assert Linked(links, v, u);
    }
    forall u: nat ensures !Adjacent(adj, u, u) {
      assert Adjacent(adj, u, u) ==> Linked(links, u, u);
    }
  }

  /** `start_nodes`: the ids of names starting with 't'. */
  function Starts(links: seq<Link>): (r: set<nat>)
    ensures forall n :: n in r <==> exists k :: 0 <= k < |links| && ((links[k].ta && links[k].a == n) || (links[k].tb && links[k].b == n))
  {
    var firsts := set k | 0 <= k < |links| && links[k].ta :: links[k].a;
    var seconds := set k | 0 <= k < |links| && links[k].tb :: links[k].b;
    firsts + seconds
  }

  /** A closed walk's vector after `sort` and `dedup`. */
  function Canon(walk: seq<int>): (r: seq<int>)
    ensures Sorting.StrictlySorted(r)
    ensures forall x :: x in r <==> x in walk
  {
    Sorting.InSort(walk);
    Sorting.Dedup(Sorting.Sort(walk))
  }

  /** The closed walk `s, a, b, s`, canonicalised. */
  function Cycle(s: nat, a: nat, b: nat): seq<int>
  {
    Canon([s, a, b, s])
  }

  /** `cycles_3`: the canonical vectors of every walk of three steps from
      a start node back to itself. */
  function Cycles(adj: seq<seq<nat>>, starts: set<nat>): set<seq<int>>
  {
    set s, a, b | s in starts && s < |adj| && a in adj[s] && a < |adj| && b in adj[a] && b < |adj| && s in adj[b] :: Cycle(s, a, b)
  }

  /** Part one on the lines; `None` where the source panics. */
  function Count(lines: seq<seq<char>>): (r: Option<nat>)
    ensures r.Some? <==> Links(lines).Some? && InRange(Links(lines).value)
    ensures r.Some? ==> r.value == |Cycles(Adjacency(Links(lines).value), Starts(Links(lines).value))|
  {
    match Links(lines)
    case None => None
    case Some(links) =>
      if InRange(links) then Some(|Cycles(Adjacency(links), Starts(links))|) else None
  }

  /** `part1`: the count on the input's lines. */
  function Part1(input: seq<char>): (r: Option<nat>)
    ensures var links := Links(Text.Split(input, '\n'));
      r.Some? <==> links.Some? && InRange(links.value)
    ensures r.Some? ==> var links := Links(Text.Split(input, '\n')).value;
      r.value == |Cycles(Adjacency(links), Starts(links))|
  {
    Count(Text.Split(input, '\n'))
  }

  /** Three pairwise linked, distinct computers. */
  predicate Triangle(adj: seq<seq<nat>>, x: nat, y: nat, z: nat)
  {
    x != y && y != z && z != x && Adjacent(adj, x, y) && Adjacent(adj, y, z) && Adjacent(adj, z, x)
  }

  /** The three ids of a triangle in increasing order. */
  function Ordered(x: int, y: int, z: int): (r: seq<int>)
    requires x != y && y != z && z != x
    ensures Sorting.StrictlySorted(r) && |r| == 3
    ensures forall v :: v in r <==> v == x || v == y || v == z
  {
    if x < y then
      if y < z then [x, y, z] else if x < z then [x, z, y] else [z, x, y]
    else
      if x < z then [y, x, z] else if y < z then [y, z, x] else [z, y, x]
  }

  /** A walk through three distinct ids canonicalises to those three ids
      in order, whichever of them it starts from and in which direction. */
  lemma CycleOfThree(x: nat, y: nat, z: nat)
    requires x != y && y != z && z != x
    ensures Cycle(x, y, z) == Ordered(x, y, z)
    ensures Cycle(x, y, z) == Cycle(y, z, x) == Cycle(z, x, y) == Cycle(x, z, y)
  {
    Sorting.StrictlySortedUnique(Cycle(x, y, z), Ordered(x, y, z));
    Sorting.StrictlySortedUnique(Cycle(y, z, x), Ordered(x, y, z));
    Sorting.StrictlySortedUnique(Cycle(z, x, y), Ordered(x, y, z));
    Sorting.StrictlySortedUnique(Cycle(x, z, y), Ordered(x, y, z));
  }

  /** On a simple table, part one counts exactly the triangles with a
      't' computer, each once however many of its walks reach it: every
      counted vector is a triangle's three ids in order, and every such
      triangle is counted. */
  lemma CyclesAreTriangles(adj: seq<seq<nat>>, starts: set<nat>)
    requires Simple(adj)
    ensures forall c :: c in Cycles(adj, starts) ==>
      exists x: nat, y: nat, z: nat :: x in starts && Triangle(adj, x, y, z) && c == Ordered(x, y, z)
  {
    forall c | c in Cycles(adj, starts)
      ensures exists x: nat, y: nat, z: nat :: x in starts && Triangle(adj, x, y, z) && c == Ordered(x, y, z)
    {
      var s, a, b :| s in starts && s < |adj| && a in adj[s] && a < |adj| && b in adj[a] && b < |adj| && s in adj[b] && c == Cycle(s, a, b);
      assert Adjacent(adj, s, a) && Adjacent(adj, a, b) && Adjacent(adj, b, s);
      CycleOfThree(s, a, b);
      assert Triangle(adj, s, a, b);
    }
  }

  lemma TrianglesAreCycles(adj: seq<seq<nat>>, starts: set<nat>, x: nat, y: nat, z: nat)
    requires Simple(adj)
    requires Triangle(adj, x, y, z) && (x in starts || y in starts || z in starts)
    ensures Ordered(x, y, z) in Cycles(adj, starts)
  {
    CycleOfThree(x, y, z);
    if x in starts {
      WalkCounted(adj, starts, x, y, z);
    } else if y in starts {
      WalkCounted(adj, starts, y, z, x);
    } else {
      WalkCounted(adj, starts, z, x, y);
    }
  }

  lemma WalkCounted(adj: seq<seq<nat>>, starts: set<nat>, s: nat, a: nat, b: nat)
    requires s in starts && Adjacent(adj, s, a) && Adjacent(adj, a, b) && Adjacent(adj, b, s)
    ensures Cycle(s, a, b) in Cycles(adj, starts)
  {
  }

  /** `nodes` in part two: both ends of every line. */
  function Nodes(links: seq<Link>): (r: set<nat>)
    ensures forall n :: n in r <==> exists k :: 0 <= k < |links| && (links[k].a == n || links[k].b == n)
    ensures InRange(links) ==> forall n :: n in r ==> n < Dim
  {
    (set k | 0 <= k < |links| :: links[k].a) + (set k | 0 <= k < |links| :: links[k].b)
  }

  /** Every two members of `c` are neighbours. */
  ghost predicate Clique(adj: seq<seq<nat>>, c: set<nat>)
  {
    forall u, v :: u in c && v in c && u != v ==> Adjacent(adj, u, v)
  }

  /** The nodes outside `r` that are neighbours of all of `r`: those that
      would extend it to a larger clique. */
  ghost function Candidates(adj: seq<seq<nat>>, nodes: set<nat>, r: set<nat>): set<nat>
  {
    set v | v in nodes && v !in r && forall u :: u in r ==> Adjacent(adj, u, v)
  }

  /** No node extends `c`. */
  ghost predicate Maximal(adj: seq<seq<nat>>, nodes: set<nat>, c: set<nat>)
  {
    Candidates(adj, nodes, c) == {}
  }

  /** A maximal clique that a call on `r` and `p` must report: it extends
      `r` by members of `p` only. */
  ghost predicate Pending(adj: seq<seq<nat>>, nodes: set<nat>, r: set<nat>, p: set<nat>, c: set<nat>)
  {
    c <= nodes && Clique(adj, c) && Maximal(adj, nodes, c) && r <= c && c - r <= p
  }

  /** `next`: the neighbour list of `v` as a set. */
  function Neighbours(adj: seq<seq<nat>>, v: nat): (r: set<nat>)
    requires v < |adj|
    ensures forall w :: w in r <==> Adjacent(adj, v, w)
  {
    set w | w in adj[v]
  }

  /** Adding a candidate keeps a clique a clique, and the candidates of
      the larger clique are the old ones that neighbour the new member. */
  lemma {:induction false} Grow(adj: seq<seq<nat>>, nodes: set<nat>, r: set<nat>, v: nat)
    requires Simple(adj) && Clique(adj, r) && v in Candidates(adj, nodes, r)
    requires forall n :: n in nodes ==> n < Dim
    ensures Clique(adj, r + {v})
    ensures Candidates(adj, nodes, r + {v}) == Candidates(adj, nodes, r) * Neighbours(adj, v)
  {
    forall u, w | u in r + {v} && w in r + {v} && u != w ensures Adjacent(adj, u, w) {
      if u == v {
        assert Adjacent(adj, w, v);
      }
    }
    var next := Neighbours(adj, v);
    forall w | w in Candidates(adj, nodes, r) * next ensures w in Candidates(adj, nodes, r + {v}) {
      assert w != v by {
        assert Adjacent(adj, v, w) && !Adjacent(adj, v, v);
      }
    }
    forall w | w in Candidates(adj, nodes, r + {v}) ensures w in Candidates(adj, nodes, r) * next {
      assert Adjacent(adj, v, w);
    }
  }

  /** Every set in `cliques` is a maximal clique containing `r`. */
  ghost predicate Reported(adj: seq<seq<nat>>, nodes: set<nat>, r: set<nat>, cliques: seq<set<nat>>)
  {
    forall k :: 0 <= k < |cliques| ==>
      r <= cliques[k] <= nodes && Clique(adj, cliques[k]) && Maximal(adj, nodes, cliques[k])
  }

  /** Every maximal clique a call on `r` and `p` owes is either reported
      or still reachable through the untried members `rest`. */
  ghost predicate Covered(adj: seq<seq<nat>>, nodes: set<nat>, r: set<nat>, p: set<nat>, rest: set<nat>, cliques: seq<set<nat>>)
  {
    forall c :: Pending(adj, nodes, r, p, c) ==> (c != r && c - r <= rest) || c in cliques
  }

  lemma ReportedAppend(adj: seq<seq<nat>>, nodes: set<nat>, r: set<nat>, v: nat, done: seq<set<nat>>, found: seq<set<nat>>)
    requires Reported(adj, nodes, r, done) && Reported(adj, nodes, r + {v}, found)
    ensures Reported(adj, nodes, r, done + found)
  {
    forall k | 0 <= k < |done + found|
      ensures r <= (done + found)[k] <= nodes && Clique(adj, (done + found)[k]) && Maximal(adj, nodes, (done + found)[k])
    {
      if k >= |done| {
        assert (done + found)[k] == found[k - |done|];
      }
    }
  }

  /** Before the loop: a maximal clique equal to `r` would leave no
      candidates, so every owed clique is still reachable. */
  lemma CoveredStart(adj: seq<seq<nat>>, nodes: set<nat>, r: set<nat>, p: set<nat>, x: set<nat>)
    requires p + x == Candidates(adj, nodes, r) && (p != {} || x != {})
    ensures Covered(adj, nodes, r, p, p, [])
  {
  }

  /** Trying `v`: an owed clique containing `v` is owed by the recursive
      call, one without `v` stays reachable through the rest. */
  lemma CoveredStep(adj: seq<seq<nat>>, nodes: set<nat>, r: set<nat>, p: set<nat>, rest: set<nat>, v: nat,
                    done: seq<set<nat>>, found: seq<set<nat>>)
    requires v in rest && v < |adj|
    requires Covered(adj, nodes, r, p, rest, done)
    requires forall c :: Pending(adj, nodes, r + {v}, rest * Neighbours(adj, v), c) ==> c in found
    ensures Covered(adj, nodes, r, p, rest - {v}, done + found)
  {
    var next := Neighbours(adj, v);
    forall c | Pending(adj, nodes, r, p, c) && v in c && c !in done ensures c in found {
      assert c - r <= rest;
      assert Pending(adj, nodes, r + {v}, rest * next, c) by {
        forall w | w in c - (r + {v}) ensures w in next {
          assert v in c && w in c && v != w;
          assert Adjacent(adj, v, w);
        }
      }
    }
  }

  /** After the loop every owed clique has been reported. */
  lemma CoveredEnd(adj: seq<seq<nat>>, nodes: set<nat>, r: set<nat>, p: set<nat>, cliques: seq<set<nat>>)
    requires Covered(adj, nodes, r, p, {}, cliques)
    ensures forall c :: Pending(adj, nodes, r, p, c) ==> c in cliques
  {
    forall c | Pending(adj, nodes, r, p, c) ensures c in cliques {
      if c - r <= {} {
        NothingAdded(c, r);
      }
    }
  }

  lemma NothingAdded<T>(c: set<T>, r: set<T>)
    requires r <= c && c - r <= {}
    ensures c == r
  {
    assert forall w :: w in c && w !in r ==> w in c - r;
  }

  /** With no candidates left, the only clique owed is `r` itself. */
  lemma OnlyItself(adj: seq<seq<nat>>, nodes: set<nat>, r: set<nat>)
    ensures forall c :: Pending(adj, nodes, r, {}, c) ==> c in [r]
  {
    forall c | Pending(adj, nodes, r, {}, c) ensures c in [r] {
      NothingAdded(c, r);
    }
  }

  /** `bron_kerbosch`: the sets `p` and `x` together hold exactly the
      candidates of the clique `r`; each `v` of `p` is tried in turn with
      both narrowed to its neighbours and then moved from `p` to `x`, and
      `r` is reported once both are empty. Every reported set is a
      maximal clique containing `r`, every maximal clique that extends `r`
      by members of `p` is reported, and with `x` empty at least one is. */
  method BronKerbosch(adj: seq<seq<nat>>, nodes: set<nat>, r: set<nat>, p: set<nat>, x: set<nat>)
    returns (cliques: seq<set<nat>>)
    requires Simple(adj) && forall n :: n in nodes ==> n < Dim
    requires r <= nodes && Clique(adj, r)
    requires p + x == Candidates(adj, nodes, r)
    ensures Reported(adj, nodes, r, cliques)
    ensures forall c :: Pending(adj, nodes, r, p, c) ==> c in cliques
    ensures x == {} ==> |cliques| >= 1
    decreases |p|, 1
  {
    if p == {} && x == {} {
      OnlyItself(adj, nodes, r);
      return [r];
    }
    cliques := [];
    var rest, seen := p, x;
    CoveredStart(adj, nodes, r, p, x);
    while rest != {}
      invariant rest <= p && seen == x + (p - rest)
      invariant Reported(adj, nodes, r, cliques)
      invariant Covered(adj, nodes, r, p, rest, cliques)
      invariant x == {} && rest != p ==> |cliques| >= 1
      decreases |rest|
    {
      SubsetCard(rest, p);
      var v, found := Try(adj, nodes, r, rest, seen);
      ReportedAppend(adj, nodes, r, v, cliques, found);
      CoveredStep(adj, nodes, r, p, rest, v, cliques, found);
      cliques := cliques + found;
      rest := rest - {v};
      seen := seen + {v};
    }
    CoveredEnd(adj, nodes, r, p, cliques);
  }

  /** One turn of the loop: some untried `v` joins `r`, and the call on
      the neighbours of `v` reports the maximal cliques through it. */
  method Try(adj: seq<seq<nat>>, nodes: set<nat>, r: set<nat>, rest: set<nat>, seen: set<nat>)
    returns (v: nat, found: seq<set<nat>>)
    requires Simple(adj) && forall n :: n in nodes ==> n < Dim
    requires r <= nodes && Clique(adj, r)
    requires rest != {} && rest + seen == Candidates(adj, nodes, r)
    ensures v in rest && v < |adj|
    ensures Reported(adj, nodes, r + {v}, found)
    ensures forall c :: Pending(adj, nodes, r + {v}, rest * Neighbours(adj, v), c) ==> c in found
    ensures seen == {} ==> |found| >= 1
    decreases |rest|, 0
  {
    v :| v in rest;
    var next := Neighbours(adj, v);
    Grow(adj, nodes, r, v);
    assert (rest * next) + (seen * next) == Candidates(adj, nodes, r + {v});
    SubsetCard(rest * next, rest - {v});
    found := BronKerbosch(adj, nodes, r + {v}, rest * next, seen * next);
  }

  /** Any clique grows, one candidate at a time, into a maximal one. */
  lemma {:induction false} ExtendToMaximal(adj: seq<seq<nat>>, nodes: set<nat>, c: set<nat>) returns (m: set<nat>)
    requires Simple(adj) && forall n :: n in nodes ==> n < Dim
    requires c <= nodes && Clique(adj, c)
    ensures c <= m <= nodes && Clique(adj, m) && Maximal(adj, nodes, m)
    decreases |nodes - c|
  {
    if Candidates(adj, nodes, c) == {} {
      m := c;
    } else {
      var v :| v in Candidates(adj, nodes, c);
      Grow(adj, nodes, c, v);
      assert nodes - (c + {v}) == (nodes - c) - {v};
      m := ExtendToMaximal(adj, nodes, c + {v});
    }
  }

  /** `max_by` on the sizes: a largest set, the last one among ties. */
  method LastLargest(cliques: seq<set<nat>>) returns (best: nat)
    requires |cliques| >= 1
    ensures best < |cliques|
    ensures forall k :: 0 <= k < |cliques| ==> |cliques[k]| <= |cliques[best]|
    ensures forall k :: best < k < |cliques| ==> |cliques[k]| < |cliques[best]|
  {
    best := 0;
    var i := 1;
    while i < |cliques|
      invariant 1 <= i <= |cliques| && best < i
      invariant forall k :: 0 <= k < i ==> |cliques[k]| <= |cliques[best]|
      invariant forall k :: best < k < i ==> |cliques[k]| < |cliques[best]|
    {
      if |cliques[i]| >= |cliques[best]| {
        best := i;
      }
      i := i + 1;
    }
  }

  /** The members of a set, in whatever order its iteration yields. */
  method Elements(s: set<nat>) returns (r: seq<nat>)
    ensures forall v :: v in r <==> v in s
  {
    r := [];
    var rest := s;
    while rest != {}
      invariant rest <= s
      invariant forall v :: v in s <==> v in r || v in rest
      decreases |rest|
    {
      var v :| v in rest;
      r := r + [v];
      rest := rest - {v};
    }
  }

  /** The two-letter name of an id below `Dim`. */
  function Name(n: nat): (r: seq<char>)
    requires n < Dim
    ensures |r| == 2 && 'a' <= r[0] <= 'z' && 'a' <= r[1] <= 'z'
    ensures Some((r[0], r[1])) == FromInt(n)
  {
    assert (n / 26) % 256 == n / 26;
    var (a, b) := FromInt(n).value;
    [a, b]
  }

  /** Names compare as strings in the order of their ids, so sorting the
      names is sorting the ids. */
  lemma NameOrder(n: nat, m: nat)
    requires n < m < Dim
    ensures Name(n)[0] < Name(m)[0] || (Name(n)[0] == Name(m)[0] && Name(n)[1] < Name(m)[1])
  {
    assert (n / 26) % 256 == n / 26 && (m / 26) % 256 == m / 26;
    assert n / 26 < m / 26 || (n / 26 == m / 26 && n % 26 < m % 26);
  }

  /** The names of ids in order. */
  function Names(ids: seq<int>): (r: seq<seq<char>>)
    requires forall k :: 0 <= k < |ids| ==> 0 <= ids[k] < Dim
    ensures |r| == |ids| && forall k :: 0 <= k < |ids| ==> r[k] == Name(ids[k])
  {
    seq(|ids|, k requires 0 <= k < |ids| => Name(ids[k]))
  }

  /** `join(",")`, which gives the empty string for no names. */
  function Password(ids: seq<int>): seq<char>
    requires forall k :: 0 <= k < |ids| ==> 0 <= ids[k] < Dim
  {
    if |ids| == 0 then [] else Text.Join(Names(ids), ',')
  }

  /** `out` is the password of `c`: its names in increasing order, joined
      by commas. */
  ghost predicate Spells(c: set<nat>, out: seq<char>)
  {
    exists ids: seq<int> ::
      Sorting.StrictlySorted(ids) && (forall v :: v in ids <==> v in c) &&
      (forall k :: 0 <= k < |ids| ==> 0 <= ids[k] < Dim) && out == Password(ids)
  }

  /** A set has one password. */
  lemma SpellsUnique(c: set<nat>, one: seq<char>, other: seq<char>)
    requires Spells(c, one) && Spells(c, other)
    ensures one == other
  {
    var a: seq<int> :| Sorting.StrictlySorted(a) && (forall v :: v in a <==> v in c) &&
      (forall k :: 0 <= k < |a| ==> 0 <= a[k] < Dim) && one == Password(a);
    var b: seq<int> :| Sorting.StrictlySorted(b) && (forall v :: v in b <==> v in c) &&
      (forall k :: 0 <= k < |b| ==> 0 <= b[k] < Dim) && other == Password(b);
    Sorting.StrictlySortedUnique(a, b);
  }

  /** `c` is a clique no clique of the graph outgrows. */
  ghost predicate Largest(adj: seq<seq<nat>>, nodes: set<nat>, c: set<nat>)
  {
    c <= nodes && Clique(adj, c) && forall d :: d <= nodes && Clique(adj, d) ==> |d| <= |c|
  }

  /** Runs Bron-Kerbosch from the empty clique and picks the last of
      the largest sets it reports, which is a largest clique overall:
      every clique grows into a maximal one, and all of those are
      reported. */
  method Biggest(adj: seq<seq<nat>>, nodes: set<nat>) returns (c: set<nat>)
    requires Simple(adj) && forall n :: n in nodes ==> n < Dim
    ensures Largest(adj, nodes, c)
  {
    assert nodes + {} == Candidates(adj, nodes, {});
    var cliques := BronKerbosch(adj, nodes, {}, nodes, {});
    var best := LastLargest(cliques);
    c := cliques[best];
    forall d | d <= nodes && Clique(adj, d) ensures |d| <= |c| {
      var m := ExtendToMaximal(adj, nodes, d);
      assert Pending(adj, nodes, {}, nodes, m);
      SubsetCard(d, m);
    }
  }

  /** The names of `c`, sorted and joined. */
  method Spell(c: set<nat>) returns (out: seq<char>)
    requires forall n :: n in c ==> n < Dim
    ensures Spells(c, out)
  {
    var members := Elements(c);
    Sorting.InSort(members);
    var ids := Sorting.Dedup(Sorting.Sort(members));
    forall k | 0 <= k < |ids| ensures 0 <= ids[k] < Dim {
      assert ids[k] in ids;
    }
    out := Password(ids);
  }

  /** Part two on the lines: `None` where the source panics, or where a
      line links a computer to itself and the recursion never ends. */
  method Solve(lines: seq<seq<char>>) returns (r: Option<seq<char>>)
    ensures r.Some? <==> Links(lines).Some? && InRange(Links(lines).value) && LoopFree(Links(lines).value)
    ensures r.Some? ==>
      var links := Links(lines).value;
      exists c :: Largest(Adjacency(links), Nodes(links), c) && Spells(c, r.value)
  {
    var parsed := Links(lines);
    if parsed.None? || !InRange(parsed.value) || !LoopFree(parsed.value) {
      return None;
    }
    var links := parsed.value;
    AdjacencySimple(links);
    var c := Biggest(Adjacency(links), Nodes(links));
    var out := Spell(c);
    r := Some(out);
  }

  /** `part2`: the password of a largest clique among the input's
      computers. */
  method Part2(input: seq<char>) returns (r: Option<seq<char>>)
    ensures var links := Links(Text.Split(input, '\n'));
      r.Some? <==> links.Some? && InRange(links.value) && LoopFree(links.value)
    ensures r.Some? ==> var links := Links(Text.Split(input, '\n')).value;
      exists c :: Largest(Adjacency(links), Nodes(links), c) && Spells(c, r.value)
  {
    r := Solve(Text.Split(input, '\n'));
  }
}
