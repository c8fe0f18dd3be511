/** Day 14: robots that walk in straight lines across a floor whose
    edges wrap around. A robot's place after any number of seconds is
    its start plus its velocity times the seconds, reduced into the
    floor; part one counts robots per quadrant after 100 seconds, part
    two looks for the first second at which no two robots share a tile. */
module Day14 {
  import opened Common
  import Decimal
  import Text

  const Width: int := 101
  const Height: int := 103

  /** The seconds part one lets pass. */
  const Seconds: int := 100

  datatype Robot = Robot(pos: (int, int), vel: (int, int))

  // ----- reading a robot -----

  /** The line with `=` and `,` read as spaces, so that splitting it on
      spaces is `split(['=', ',', ' '])`. */
  function Spaced(s: seq<char>): (r: seq<char>)
    ensures |r| == |s|
    ensures forall k :: 0 <= k < |s| ==> r[k] == if s[k] == '=' || s[k] == ',' then ' ' else s[k]
  {
    seq(|s|, k requires 0 <= k < |s| => if s[k] == '=' || s[k] == ',' then ' ' else s[k])
  }

  /** `Robot::from_line`: the second and third fields are the position,
      the fifth and sixth the velocity. `None` where a field is missing
      or is not a number, the two ways the source's `unwrap`s panic. */
  function FromLine(line: seq<char>): (r: Option<Robot>)
    ensures r.Some? ==> |Text.Split(Spaced(line), ' ')| >= 6
  {
    FromFields(Text.Split(Spaced(line), ' '))
  }

  function FromFields(f: seq<seq<char>>): (r: Option<Robot>)
    ensures r.Some? ==> |f| >= 6
  {
    if |f| < 6 then None
    else
      match (Decimal.ParseInt(f[1]), Decimal.ParseInt(f[2]), Decimal.ParseInt(f[4]), Decimal.ParseInt(f[5]))
      case (Some(px), Some(py), Some(vx), Some(vy)) => Some(Robot((px, py), (vx, vy)))
      case _ => None
  }

  /** The line the puzzle writes for a robot: `p=<x>,<y> v=<dx>,<dy>`. */
  function Describe(r: Robot): seq<char>
  {
    "p=" + Decimal.IntString(r.pos.0) + "," + Decimal.IntString(r.pos.1)
      + " v=" + Decimal.IntString(r.vel.0) + "," + Decimal.IntString(r.vel.1)
  }

  /** Reading a robot's line gives the robot back. */
  lemma FromLineRoundTrip(r: Robot)
    ensures FromLine(Describe(r)) == Some(r)
  {
    var a, b := Decimal.IntString(r.pos.0), Decimal.IntString(r.pos.1);
    var c, d := Decimal.IntString(r.vel.0), Decimal.IntString(r.vel.1);
    IntStringPlain(r.pos.0);
    IntStringPlain(r.pos.1);
    IntStringPlain(r.vel.0);
    IntStringPlain(r.vel.1);
    var pieces := ["p", a, b, "v", c, d];
    assert Spaced(Describe(r)) == Text.Join(pieces, ' ') by {
      SpacedPieces(a, b, c, d);
      JoinSix(pieces);
    }
    assert forall k :: 0 <= k < |pieces| ==> ' ' !in pieces[k];
    Text.SplitJoin(pieces, ' ');
    assert Text.Split(Spaced(Describe(r)), ' ') == pieces;
    Decimal.ParseIntString(r.pos.0);
    Decimal.ParseIntString(r.pos.1);
    Decimal.ParseIntString(r.vel.0);
    Decimal.ParseIntString(r.vel.1);
    FieldsRead(a, b, c, d, r);
  }

  lemma FieldsRead(a: seq<char>, b: seq<char>, c: seq<char>, d: seq<char>, r: Robot)
    requires Decimal.ParseInt(a) == Some(r.pos.0) && Decimal.ParseInt(b) == Some(r.pos.1)
    requires Decimal.ParseInt(c) == Some(r.vel.0) && Decimal.ParseInt(d) == Some(r.vel.1)
    ensures FromFields(["p", a, b, "v", c, d]) == Some(r)
  {
  }

  /** A number's text has no separators in it. */
  lemma IntStringPlain(x: int)
    ensures var s := Decimal.IntString(x); ' ' !in s && '=' !in s && ',' !in s
  {
    var s := Decimal.IntString(x);
    if x < 0 {
      assert forall k :: 1 <= k < |s| ==> Decimal.IsDigitChar(s[k]) by {
        assert forall k :: 1 <= k < |s| ==> s[k] == s[1..][k - 1];
      }
    }
  }

  lemma SpacedPieces(a: seq<char>, b: seq<char>, c: seq<char>, d: seq<char>)
    requires ' ' !in a && '=' !in a && ',' !in a
    requires ' ' !in b && '=' !in b && ',' !in b
    requires ' ' !in c && '=' !in c && ',' !in c
    requires ' ' !in d && '=' !in d && ',' !in d
    ensures Spaced("p=" + a + "," + b + " v=" + c + "," + d)
      == "p" + [' '] + a + [' '] + b + [' '] + "v" + [' '] + c + [' '] + d
  {
  }

  lemma JoinSix(p: seq<seq<char>>)
    requires |p| == 6
    ensures Text.Join(p, ' ') == p[0] + [' '] + p[1] + [' '] + p[2] + [' '] + p[3] + [' '] + p[4] + [' '] + p[5]
  {
    assert p[..5][..4] == p[..4] && p[..4][..3] == p[..3];
    assert p[..3][..2] == p[..2] && p[..2][..1] == p[..1];
    assert Text.Join(p[..1], ' ') == p[0];
    assert Text.Join(p[..2], ' ') == p[0] + [' '] + p[1];
    assert Text.Join(p[..3], ' ') == p[0] + [' '] + p[1] + [' '] + p[2];
    assert Text.Join(p[..4], ' ') == p[0] + [' '] + p[1] + [' '] + p[2] + [' '] + p[3];
    assert Text.Join(p[..5], ' ') == p[0] + [' '] + p[1] + [' '] + p[2] + [' '] + p[3] + [' '] + p[4];
  }

  // ----- motion -----

  /** `a` and `b` leave the same remainder by `n`. */
  predicate Congruent(a: int, b: int, n: int)
    requires n != 0
  {
    (a - b) % n == 0
  }

  /** `rem_euclid`, which is Dafny's `%`, is the one value in `0..|n|`
      that differs from `a` by a multiple of `n`. */
  lemma ModUnique(a: int, n: int, q: int, r: int)
    requires n != 0 && 0 <= r < Abs(n) && a == q * n + r
    ensures a % n == r
  {
    var q', r' := a / n, a % n;
    assert (q - q') * n == r' - r;
    if n > 0 {
      SmallMultiple(q - q', n, r' - r);
    } else {
      assert (q' - q) * -n == r' - r;
      SmallMultiple(q' - q, -n, r' - r);
    }
  }

  /** The only multiple of a positive `n` strictly between `-n` and `n`
      is 0. */
  lemma SmallMultiple(d: int, n: int, x: int)
    requires n > 0 && d * n == x && -n < x < n
    ensures d == 0
  {
    if d >= 1 {
      MulAtLeast(d, n);
    } else if d <= -1 {
      MulAtMost(d, n);
    }
  }

  /** Adding a multiple of `n` does not change the remainder. */
  lemma ModShift(x: int, q: int, n: int)
    requires n != 0
    ensures (x + q * n) % n == x % n
  {
    ModUnique(x + q * n, n, x / n + q, x % n);
  }

  /** The remainder is congruent to what it was taken of. */
  lemma ModCongruent(a: int, n: int)
    requires n != 0
    ensures Congruent(a % n, a, n)
  {
    assert a % n - a == -(a / n) * n;
    ModUnique(a % n - a, n, -(a / n), 0);
  }

  /** `Robot::advance`: `steps` seconds of motion, each coordinate
      reduced by `rem_euclid` into the floor, which panics for a zero
      bound. */
  function Advance(r: Robot, steps: int, bounds: (int, int)): (a: Robot)
    requires bounds.0 != 0 && bounds.1 != 0
    ensures a.vel == r.vel
    ensures 0 <= a.pos.0 < Abs(bounds.0) && 0 <= a.pos.1 < Abs(bounds.1)
  {
    var x, y := r.pos.0 + r.vel.0 * steps, r.pos.1 + r.vel.1 * steps;
    Robot((x % bounds.0, y % bounds.1), r.vel)
  }

  /** Where `Advance` puts a robot is, on each axis, the one tile of the
      floor that differs from start plus velocity times seconds by a
      whole number of floor widths. */
  lemma AdvanceCongruent(r: Robot, steps: int, bounds: (int, int))
    requires bounds.0 != 0 && bounds.1 != 0
    ensures var a := Advance(r, steps, bounds);
      Congruent(a.pos.0, r.pos.0 + r.vel.0 * steps, bounds.0) &&
      Congruent(a.pos.1, r.pos.1 + r.vel.1 * steps, bounds.1)
  {
    ModCongruent(r.pos.0 + r.vel.0 * steps, bounds.0);
    ModCongruent(r.pos.1 + r.vel.1 * steps, bounds.1);
  }

  /** One coordinate of `Advance`: `steps` then `more` seconds are
      `steps + more` seconds. */
  lemma WrapCompose(p: int, v: int, steps: int, more: int, n: int)
    requires n != 0
    ensures ((p + v * steps) % n + v * more) % n == (p + v * (steps + more)) % n
  {
    var x := p + v * steps;
    assert p + v * (steps + more) == (x % n + v * more) + (x / n) * n;
    ModShift(x % n + v * more, x / n, n);
  }

  /** Moving for `a` seconds and then for `b` is moving for `a + b`. */
  lemma AdvanceCompose(r: Robot, a: int, b: int, bounds: (int, int))
    requires bounds.0 != 0 && bounds.1 != 0
    ensures Advance(Advance(r, a, bounds), b, bounds) == Advance(r, a + b, bounds)
  {
    var first := Advance(r, a, bounds);
    WrapCompose(r.pos.0, r.vel.0, a, b, bounds.0);
    WrapCompose(r.pos.1, r.vel.1, a, b, bounds.1);
    assert first.pos == ((r.pos.0 + r.vel.0 * a) % bounds.0, (r.pos.1 + r.vel.1 * a) % bounds.1);
  }

  /** A robot is back where it was after `width * height` seconds. */
  lemma AdvancePeriodic(r: Robot, steps: int, k: int, bounds: (int, int))
    requires bounds.0 != 0 && bounds.1 != 0
    ensures Advance(r, steps + k * (bounds.0 * bounds.1), bounds) == Advance(r, steps, bounds)
  {
    var (w, h) := bounds;
    PeriodicAxis(r.pos.0, r.vel.0, steps, k, w, h);
    PeriodicAxis(r.pos.1, r.vel.1, steps, k, h, w);
    assert k * (w * h) == k * (h * w);
  }

  /** One axis of `AdvancePeriodic`: `k * n * m` more seconds shift the
      coordinate by a multiple of `n`. */
  lemma PeriodicAxis(p: int, v: int, steps: int, k: int, n: int, m: int)
    requires n != 0
    ensures (p + v * (steps + k * (n * m))) % n == (p + v * steps) % n
  {
    var x := p + v * steps;
    Regroup(p, v, steps, k * m, n);
    assert k * (n * m) == (k * m) * n;
    ModShift(x, v * (k * m), n);
  }

  lemma Regroup(p: int, v: int, steps: int, j: int, n: int)
    ensures p + v * (steps + j * n) == (p + v * steps) + (v * j) * n
  {
    assert v * (steps + j * n) == v * steps + v * (j * n);
    assert v * (j * n) == (v * j) * n;
  }

  /** `/ 2` on `isize`, which rounds toward zero. */
  function Half(n: int): int
  {
    if n >= 0 then n / 2 else -((-n) / 2)
  }

  /** `Robot::get_quadrant`: quadrants 0 and 1 left of the middle column,
      2 and 3 right of it, the odd ones below the middle row; a robot on
      the middle column or row has none. */
  function Quadrant(r: Robot, bounds: (int, int)): (q: Option<nat>)
    ensures q.None? <==> r.pos.0 == Half(bounds.0) || r.pos.1 == Half(bounds.1)
    ensures q.Some? ==> q.value < 4
    ensures q.Some? ==> (q.value >= 2 <==> r.pos.0 > Half(bounds.0))
    ensures q.Some? ==> (q.value % 2 == 1 <==> r.pos.1 > Half(bounds.1))
  {
    var (mx, my) := (Half(bounds.0), Half(bounds.1));
    if r.pos.0 < mx then
      if r.pos.1 < my then Some(0) else if r.pos.1 > my then Some(1) else None
    else if r.pos.0 > mx then
      if r.pos.1 < my then Some(2) else if r.pos.1 > my then Some(3) else None
    else None
  }

  /** On a floor of odd width, the mirror image of a robot across the
      middle column lies in the quadrant across from it. */
  lemma QuadrantMirror(r: Robot, bounds: (int, int))
    requires bounds.0 > 0 && bounds.0 % 2 == 1
    ensures var m := Robot((bounds.0 - 1 - r.pos.0, r.pos.1), r.vel);
      match (Quadrant(r, bounds), Quadrant(m, bounds))
      case (None, None) => true
      case (Some(q), Some(q')) => q' == (q + 2) % 4
      case _ => false
  {
  }

  // ----- part one -----

  /** How many of the robots stand in quadrant `q`. */
  function InQuadrant(rs: seq<Robot>, q: nat, bounds: (int, int)): (n: nat)
    ensures n <= |rs|
  {
    if |rs| == 0 then 0
    else InQuadrant(rs[..|rs| - 1], q, bounds) + (if Quadrant(rs[|rs| - 1], bounds) == Some(q) then 1 else 0)
  }

  /** How many of the robots stand on the middle column or row. */
  function OnMiddle(rs: seq<Robot>, bounds: (int, int)): (n: nat)
    ensures n <= |rs|
  {
    if |rs| == 0 then 0
    else OnMiddle(rs[..|rs| - 1], bounds) + (if Quadrant(rs[|rs| - 1], bounds).None? then 1 else 0)
  }

  /** Every robot is counted once: in one quadrant or on the middle. */
  lemma {:induction false} QuadrantsCover(rs: seq<Robot>, bounds: (int, int))
    ensures InQuadrant(rs, 0, bounds) + InQuadrant(rs, 1, bounds) + InQuadrant(rs, 2, bounds)
      + InQuadrant(rs, 3, bounds) + OnMiddle(rs, bounds) == |rs|
  {
    if |rs| > 0 {
      QuadrantsCover(rs[..|rs| - 1], bounds);
    }
  }

  /** Every robot, `steps` seconds on. */
  function AdvanceAll(rs: seq<Robot>, steps: int, bounds: (int, int)): (moved: seq<Robot>)
    requires bounds.0 != 0 && bounds.1 != 0
    ensures |moved| == |rs|
  {
    if |rs| == 0 then []
    else AdvanceAll(rs[..|rs| - 1], steps, bounds) + [Advance(rs[|rs| - 1], steps, bounds)]
  }

  /** Each robot of the row is moved on its own. */
  lemma {:induction false} AdvanceAllAt(rs: seq<Robot>, steps: int, bounds: (int, int), k: nat)
    requires bounds.0 != 0 && bounds.1 != 0 && k < |rs|
    ensures AdvanceAll(rs, steps, bounds)[k] == Advance(rs[k], steps, bounds)
  {
    if k < |rs| - 1 {
      AdvanceAllAt(rs[..|rs| - 1], steps, bounds, k);
    }
  }

  /** `AdvanceCompose` for the whole row. */
  lemma {:induction false} AdvanceAllCompose(rs: seq<Robot>, a: int, b: int, bounds: (int, int))
    requires bounds.0 != 0 && bounds.1 != 0
    ensures AdvanceAll(AdvanceAll(rs, a, bounds), b, bounds) == AdvanceAll(rs, a + b, bounds)
  {
    if |rs| > 0 {
      var moved := AdvanceAll(rs, a, bounds);
      assert moved[..|moved| - 1] == AdvanceAll(rs[..|rs| - 1], a, bounds);
      AdvanceAllCompose(rs[..|rs| - 1], a, b, bounds);
      AdvanceCompose(rs[|rs| - 1], a, b, bounds);
    }
  }

  /** `AdvancePeriodic` for the whole row. */
  lemma {:induction false} AdvanceAllPeriodic(rs: seq<Robot>, steps: int, k: int, bounds: (int, int))
    requires bounds.0 != 0 && bounds.1 != 0
    ensures AdvanceAll(rs, steps + k * (bounds.0 * bounds.1), bounds) == AdvanceAll(rs, steps, bounds)
  {
    if |rs| > 0 {
      AdvanceAllPeriodic(rs[..|rs| - 1], steps, k, bounds);
      AdvancePeriodic(rs[|rs| - 1], steps, k, bounds);
    }
  }

  /** What reading each line gives, line by line. */
  function ReadLines(lines: seq<seq<char>>): (r: seq<Option<Robot>>)
    ensures |r| == |lines|
  {
    if |lines| == 0 then [] else ReadLines(lines[..|lines| - 1]) + [FromLine(lines[|lines| - 1])]
  }

  lemma {:induction false} ReadLinesAt(lines: seq<seq<char>>, k: nat)
    requires k < |lines|
    ensures ReadLines(lines)[k] == FromLine(lines[k])
  {
    if k < |lines| - 1 {
      ReadLinesAt(lines[..|lines| - 1], k);
    }
  }

  /** The robots of the input lines, one per line; `None` if any line
      does not read. */
  function Robots(lines: seq<seq<char>>): (r: Option<seq<Robot>>)
    ensures r.Some? ==> |r.value| == |lines|
  {
    Collect(ReadLines(lines))
  }

  /** Each robot is read from its own line, and reading fails exactly
      when some line does not read. */
  lemma RobotsRead(lines: seq<seq<char>>)
    ensures Robots(lines).Some? <==> forall k :: 0 <= k < |lines| ==> FromLine(lines[k]).Some?
    ensures Robots(lines).Some? ==> forall k :: 0 <= k < |lines| ==> Robots(lines).value[k] == FromLine(lines[k]).value
  {
    forall k | 0 <= k < |lines| {
      ReadLinesAt(lines, k);
    }
  }

  /** The product of the four quadrant counts, 100 seconds on. */
  function SafetyFactor(rs: seq<Robot>, bounds: (int, int)): nat
    requires bounds.0 != 0 && bounds.1 != 0
  {
    var moved := AdvanceAll(rs, Seconds, bounds);
    Times(Times(InQuadrant(moved, 0, bounds), InQuadrant(moved, 1, bounds)),
      Times(InQuadrant(moved, 2, bounds), InQuadrant(moved, 3, bounds)))
  }

  /** `part1_with_bounds`: each robot is read, moved 100 seconds and
      counted in its quadrant; the answer multiplies the four counts.
      `None` where reading a line panics. */
  method Part1WithBounds(input: seq<char>, width: int, height: int) returns (r: Option<nat>)
    requires width != 0 && height != 0
    ensures r.Some? <==> Robots(Text.StrLines(input)).Some?
    ensures r.Some? ==> r.value == SafetyFactor(Robots(Text.StrLines(input)).value, (width, height))
  {
    // The source reads each line just before moving its robot; a line
    // that fails to read panics either way, so reading them all first
    // gives the same answers.
    var robots := Robots(Text.StrLines(input));
    if robots.None? {
      return None;
    }
    var counts := CountQuadrants(robots.value, (width, height));
    r := Some(Times(Times(counts[0], counts[1]), Times(counts[2], counts[3])));
  }

  /** The loop of `part1_with_bounds`: each robot moved 100 seconds and
      counted in its quadrant. */
  method CountQuadrants(rs: seq<Robot>, bounds: (int, int)) returns (counts: seq<nat>)
    requires bounds.0 != 0 && bounds.1 != 0
    ensures |counts| == 4
    ensures forall q :: 0 <= q < 4 ==> counts[q] == InQuadrant(AdvanceAll(rs, Seconds, bounds), q, bounds)
  {
    counts := seq(4, _ => 0);
    ghost var moved: seq<Robot> := [];
    var i := 0;
    while i < |rs|
      invariant 0 <= i <= |rs| && |counts| == 4
      invariant moved == AdvanceAll(rs[..i], Seconds, bounds)
      invariant forall q :: 0 <= q < 4 ==> counts[q] == InQuadrant(moved, q, bounds)
    {
      var a := Advance(rs[i], Seconds, bounds);
      var quadrant := Quadrant(a, bounds);
      AdvanceAllSnoc(rs, i, Seconds, bounds);
      ghost var before := counts;
      if quadrant.Some? {
        counts := counts[quadrant.value := counts[quadrant.value] + 1];
      }
      CountStep(before, counts, moved, a, bounds);
      moved := moved + [a];
      i := i + 1;
    }
    assert rs[..|rs|] == rs;
  }

  /** One more robot counted in its quadrant, if it has one. */
  lemma CountStep(before: seq<nat>, after: seq<nat>, rs: seq<Robot>, a: Robot, bounds: (int, int))
    requires |before| == 4 && forall q :: 0 <= q < 4 ==> before[q] == InQuadrant(rs, q, bounds)
    requires Quadrant(a, bounds).None? ==> after == before
    requires Quadrant(a, bounds).Some? ==>
      var q := Quadrant(a, bounds).value; after == before[q := before[q] + 1]
    ensures |after| == 4 && forall q :: 0 <= q < 4 ==> after[q] == InQuadrant(rs + [a], q, bounds)
  {
    assert (rs + [a])[..|rs|] == rs;
  }

  /** Moving one more robot moves the row one robot longer. */
  lemma AdvanceAllSnoc(rs: seq<Robot>, i: nat, steps: int, bounds: (int, int))
    requires bounds.0 != 0 && bounds.1 != 0 && i < |rs|
    ensures AdvanceAll(rs[..i + 1], steps, bounds) == AdvanceAll(rs[..i], steps, bounds) + [Advance(rs[i], steps, bounds)]
  {
    assert rs[..i + 1][..i] == rs[..i];
  }

  method Part1(input: seq<char>) returns (r: Option<nat>)
    ensures r.Some? <==> Robots(Text.StrLines(input)).Some?
    ensures r.Some? ==> r.value == SafetyFactor(Robots(Text.StrLines(input)).value, (Width, Height))
  {
    r := Part1WithBounds(input, Width, Height);
  }

  // ----- part two -----

  /** The tiles the robots stand on, as the source's `HashSet` collects
      them robot by robot. */
  function Tiles(rs: seq<Robot>): (s: set<(int, int)>)
    ensures forall k :: 0 <= k < |rs| ==> rs[k].pos in s
    ensures forall p :: p in s ==> exists k :: 0 <= k < |rs| && rs[k].pos == p
  {
    if |rs| == 0 then {} else Tiles(rs[..|rs| - 1]) + {rs[|rs| - 1].pos}
  }

  /** Each robot stands on a tile none of the robots before it stands on. */
  predicate Apart(rs: seq<Robot>)
  {
    |rs| == 0 ||
    (Apart(rs[..|rs| - 1]) && forall k :: 0 <= k < |rs| - 1 ==> rs[k].pos != rs[|rs| - 1].pos)
  }

  /** `Apart` says that no two robots share a tile. */
  lemma {:induction false} ApartPairwise(rs: seq<Robot>)
    ensures Apart(rs) <==> forall i, j :: 0 <= i < j < |rs| ==> rs[i].pos != rs[j].pos
  {
    if |rs| > 0 {
      var front := rs[..|rs| - 1];
      ApartPairwise(front);
      if Apart(rs) {
        forall i, j | 0 <= i < j < |rs|
          ensures rs[i].pos != rs[j].pos
        {
          if j < |rs| - 1 {
            assert rs[i] == front[i] && rs[j] == front[j];
          }
        }
      }
      if forall i, j :: 0 <= i < j < |rs| ==> rs[i].pos != rs[j].pos {
        forall i, j | 0 <= i < j < |front|
          ensures front[i].pos != front[j].pos
        {
          assert rs[i] == front[i] && rs[j] == front[j];
        }
      }
    }
  }

  /** The source's test, as many tiles as robots, is exactly that no two
      robots share a tile. */
  lemma {:induction false} TilesCount(rs: seq<Robot>)
    ensures |Tiles(rs)| <= |rs|
    ensures |Tiles(rs)| == |rs| <==> Apart(rs)
  {
    if |rs| > 0 {
      var front, last := rs[..|rs| - 1], rs[|rs| - 1];
      TilesCount(front);
      if last.pos in Tiles(front) {
        assert Tiles(rs) == Tiles(front);
        var k :| 0 <= k < |front| && front[k].pos == last.pos;
        assert rs[k].pos == last.pos;
      } else {
        assert |Tiles(rs)| == |Tiles(front)| + 1;
        assert forall k :: 0 <= k < |rs| - 1 ==> rs[k].pos == front[k].pos;
      }
    }
  }

  /** The robots after one more second. */
  function Tick(rs: seq<Robot>, bounds: (int, int)): seq<Robot>
    requires bounds.0 != 0 && bounds.1 != 0
  {
    AdvanceAll(rs, 1, bounds)
  }

  /** The robots after `t` single seconds, as `part2_with_bounds` moves
      them: one `advance(1, ..)` per robot per second. */
  function Later(rs: seq<Robot>, t: nat, bounds: (int, int)): seq<Robot>
    requires bounds.0 != 0 && bounds.1 != 0
  {
    if t == 0 then rs else Tick(Later(rs, t - 1, bounds), bounds)
  }

  /** Second by second is the same as all at once. */
  lemma {:induction false} LaterIsAdvance(rs: seq<Robot>, t: nat, bounds: (int, int))
    requires bounds.0 != 0 && bounds.1 != 0 && t >= 1
    ensures Later(rs, t, bounds) == AdvanceAll(rs, t, bounds)
  {
    if t > 1 {
      LaterIsAdvance(rs, t - 1, bounds);
      AdvanceAllCompose(rs, t - 1, 1, bounds);
    }
  }

  /** `part2_with_bounds`: second by second, every robot is moved and the
      first second at which no two share a tile is the answer. The source
      loops until it finds one; the model stops after `fuel` seconds with
      `None`, which `Part2Exhausted` shows loses nothing once `fuel`
      reaches `width * height`. */
  method Part2WithBounds(input: seq<char>, width: int, height: int, fuel: nat) returns (r: Option<nat>)
    requires width != 0 && height != 0
    ensures r.Some? ==> Robots(Text.StrLines(input)).Some? && 1 <= r.value <= fuel
    ensures r.Some? ==> Apart(Later(Robots(Text.StrLines(input)).value, r.value, (width, height)))
    ensures r.Some? ==> forall t :: 1 <= t < r.value ==> !Apart(Later(Robots(Text.StrLines(input)).value, t, (width, height)))
    ensures r.None? && Robots(Text.StrLines(input)).Some? ==>
      forall t :: 1 <= t <= fuel ==> !Apart(Later(Robots(Text.StrLines(input)).value, t, (width, height)))
  {
    var bounds := (width, height);
    var start := Robots(Text.StrLines(input));
    if start.None? {
      return None;
    }
    var robots := start.value;
    var steps := 0;
    while steps < fuel
      invariant 0 <= steps <= fuel
      invariant robots == Later(start.value, steps, bounds)
      invariant forall t :: 1 <= t <= steps ==> !Apart(Later(start.value, t, bounds))
    {
      robots := Tick(robots, bounds);
      steps := steps + 1;
      TilesCount(robots);
      assert robots == Later(start.value, steps, bounds);
      if |Tiles(robots)| == |robots| {
        assert Apart(Later(start.value, steps, bounds));
        return Some(steps);
      }
      forall t | 1 <= t <= steps
        ensures !Apart(Later(start.value, t, bounds))
      {
        if t == steps {
          assert Later(start.value, t, bounds) == robots;
        }
      }
    }
    r := None;
  }

  /** Motion repeats every `width * height` seconds, so if none of the
      first `|width * height|` seconds separates the robots, none ever
      does and the source's loop never ends. */
  lemma Part2Exhausted(rs: seq<Robot>, bounds: (int, int))
    requires bounds.0 != 0 && bounds.1 != 0
    requires forall t :: 1 <= t <= Abs(bounds.0 * bounds.1) ==> !Apart(Later(rs, t, bounds))
    ensures forall t: nat :: t >= 1 ==> !Apart(Later(rs, t, bounds))
  {
    var n := bounds.0 * bounds.1;
    assert n != 0;
    var period := Abs(n);
    forall t: nat | t >= 1
      ensures !Apart(Later(rs, t, bounds))
    {
      var base := (t - 1) % period + 1;
      var k: int := (t - 1) / period;
      assert t == base + k * period;
      var sign: int := if n > 0 then k else -k;
      assert k * period == sign * n;
      AdvanceAllPeriodic(rs, base, sign, bounds);
      LaterIsAdvance(rs, t, bounds);
      LaterIsAdvance(rs, base, bounds);
      assert !Apart(Later(rs, base, bounds));
    }
  }

  method Part2(input: seq<char>, fuel: nat) returns (r: Option<nat>)
    ensures r.Some? ==> Robots(Text.StrLines(input)).Some? && 1 <= r.value <= fuel
    ensures r.Some? ==> Apart(Later(Robots(Text.StrLines(input)).value, r.value, (Width, Height)))
    ensures r.Some? ==> forall t :: 1 <= t < r.value ==> !Apart(Later(Robots(Text.StrLines(input)).value, t, (Width, Height)))
    ensures r.None? && Robots(Text.StrLines(input)).Some? ==>
      forall t :: 1 <= t <= fuel ==> !Apart(Later(Robots(Text.StrLines(input)).value, t, (Width, Height)))
  {
    r := Part2WithBounds(input, Width, Height, fuel);
  }
}
