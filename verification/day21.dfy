/** Day 21: keypad conundrum. A code is typed on the numeric keypad by a
    robot, whose directional keypad is worked by another robot, and so
    on, the last directional keypad being worked by hand. Each robot arm
    starts on `A`. `StepsForRobot` is the fewest presses on the outer
    keypad that move the arm of a keypad from one key to another and
    press it, `robot` levels down. */
module Day21 {
  import opened Common
  import Decimal
  import Text

  /** Keys of the directional keypad:
          +---+---+
          | ^ | A |
      +---+---+---+
      | < | v | > |
      +---+---+---+ */
  datatype Dir = Up | Down | Left | Right | Press

  /** Keys of the numeric keypad:
      +---+---+---+
      | 7 | 8 | 9 |
      +---+---+---+
      | 4 | 5 | 6 |
      +---+---+---+
      | 1 | 2 | 3 |
      +---+---+---+
          | 0 | A |
          +---+---+ */
  datatype Num = Zero | One | Two | Three | Four | Five | Six | Seven | Eight | Nine | Enter

  datatype Key = DirKey(dir: Dir) | NumKey(num: Num)

  predicate SamePad(a: Key, b: Key)
  {
    a.DirKey? == b.DirKey?
  }

  /** `Key::to_coords`: (row, column) on the key's keypad. */
  function Coords(k: Key): Pos
  {
    match k
    case DirKey(d) => (
      match d
      case Up => (0, 1)
      case Down => (1, 1)
      case Left => (1, 0)
      case Right => (1, 2)
      case Press => (0, 2))
    case NumKey(n) => (
      match n
      case Zero => (3, 1)
      case One => (2, 0)
      case Two => (2, 1)
      case Three => (2, 2)
      case Four => (1, 0)
      case Five => (1, 1)
      case Six => (1, 2)
      case Seven => (0, 0)
      case Eight => (0, 1)
      case Nine => (0, 2)
      case Enter => (3, 2))
  }

  /** The empty corner of the keypad `k` is on. */
  function Gap(k: Key): Pos
  {
    if k.NumKey? then (3, 0) else (0, 0)
  }

  /** `Key::is_forbidden`: the position is the gap of this key's keypad. */
  predicate IsForbidden(k: Key, edge: Pos)
  {
    edge == Gap(k)
  }

  /** The rectangle around the keypad `k` is on; the gap is one of its
      corners. */
  predicate InBox(k: Key, p: Pos)
  {
    0 <= p.0 <= (if k.NumKey? then 3 else 1) && 0 <= p.1 <= 2
  }

  /** A place on the keypad `k` is on: in its rectangle, off its gap. */
  predicate OnPad(k: Key, p: Pos)
  {
    InBox(k, p) && p != Gap(k)
  }

  /** Keys sit on their keypad, off its gap, and no two keys of one
      keypad share a place. */
  lemma CoordsOnPad(a: Key, b: Key)
    ensures OnPad(a, Coords(a))
    ensures SamePad(a, b) && Coords(a) == Coords(b) ==> a == b
  {
  }

  /** Every place on a keypad holds a key. */
  lemma PadHasKeys(k: Key, p: Pos)
    requires OnPad(k, p)
    ensures exists j :: SamePad(j, k) && Coords(j) == p
  {
    if k.NumKey? {
      var n :=
        if p == (3, 1) then Zero else if p == (2, 0) then One else if p == (2, 1) then Two
        else if p == (2, 2) then Three else if p == (1, 0) then Four else if p == (1, 1) then Five
        else if p == (1, 2) then Six else if p == (0, 0) then Seven else if p == (0, 1) then Eight
        else if p == (0, 2) then Nine else Enter;
      assert Coords(NumKey(n)) == p;
    } else {
      var d :=
        if p == (0, 1) then Up else if p == (1, 1) then Down else if p == (1, 0) then Left
        else if p == (1, 2) then Right else Press;
      assert Coords(DirKey(d)) == p;
    }
  }

  // ----- moving the arm -----

  /** Where one press of a direction moves an arm; `Press` leaves it. */
  function Ray(p: Pos, d: Dir, m: int): Pos
  {
    match d
    case Up => (p.0 - m, p.1)
    case Down => (p.0 + m, p.1)
    case Left => (p.0, p.1 - m)
    case Right => (p.0, p.1 + m)
    case Press => p
  }

  /** The places an arm passes through following `path` from `p`, after
      each move. */
  function Walk(p: Pos, path: seq<Dir>): (r: seq<Pos>)
    ensures |r| == |path|
    decreases |path|
  {
    if |path| == 0 then [] else [Ray(p, path[0], 1)] + Walk(Ray(p, path[0], 1), path[1..])
  }

  /** Where the arm ends up. */
  function Land(p: Pos, path: seq<Dir>): Pos
    decreases |path|
  {
    if |path| == 0 then p else Land(Ray(p, path[0], 1), path[1..])
  }

  lemma {:induction false} WalkAppend(p: Pos, a: seq<Dir>, b: seq<Dir>)
    ensures Walk(p, a + b) == Walk(p, a) + Walk(Land(p, a), b)
    ensures Land(p, a + b) == Land(Land(p, a), b)
    decreases |a|
  {
    if |a| == 0 {
      assert a + b == b;
    } else {
      WalkAppend(Ray(p, a[0], 1), a[1..], b);
      assert (a + b)[1..] == a[1..] + b;
    }
  }

  /** `n` presses of one direction. */
  function Repeat(d: Dir, n: nat): (r: seq<Dir>)
    ensures |r| == n && forall k :: 0 <= k < n ==> r[k] == d
  {
    if n == 0 then [] else [d] + Repeat(d, n - 1)
  }

  /** A straight run passes through the places one, two, … steps away. */
  lemma {:induction false} RepeatWalk(p: Pos, d: Dir, n: nat)
    ensures Land(p, Repeat(d, n)) == Ray(p, d, n)
    ensures forall k :: 0 <= k < n ==> Walk(p, Repeat(d, n))[k] == Ray(p, d, k + 1)
    decreases n
  {
    if n > 0 {
      RepeatWalk(Ray(p, d, 1), d, n - 1);
      assert Repeat(d, n)[1..] == Repeat(d, n - 1);
      forall k | 1 <= k < n
        ensures Walk(p, Repeat(d, n))[k] == Ray(p, d, k + 1)
      {
        assert Walk(p, Repeat(d, n))[k] == Walk(Ray(p, d, 1), Repeat(d, n - 1))[k - 1];
      }
    }
  }

  // ----- the paths between two keys -----

  /** The vertical leg: `Down` or `Up` and how many. */
  function VerticalLeg(d0: int): Option<(Dir, nat)>
  {
    if d0 == 0 then None else if d0 > 0 then Some((Down, d0)) else Some((Up, -d0))
  }

  /** The horizontal leg: `Right` or `Left` and how many. */
  function HorizontalLeg(d1: int): Option<(Dir, nat)>
  {
    if d1 == 0 then None else if d1 > 0 then Some((Right, d1)) else Some((Left, -d1))
  }

  /** `Key::steps_to`: the paths from `from` to `to` on the keypad of
      `from`; the moves are worked out on the keys' places by `Routes`. */
  function StepsTo(from: Key, to: Key): (r: seq<seq<Dir>>)
    ensures 1 <= |r| <= 2
    ensures forall p :: p in r ==> |p| == Manhattan(Coords(from), Coords(to))
  {
    Routes(from, Coords(from), Coords(to))
  }

  /** The straight run when `f` and `t` share a row or a column (the
      empty path when they are the same place), otherwise the vertical
      leg first, then the horizontal leg first, each left out when its
      corner is the gap of `k`'s keypad. The two corners differ, so at
      least one path is left. */
  function Routes(k: Key, f: Pos, t: Pos): (r: seq<seq<Dir>>)
    ensures 1 <= |r| <= 2
    ensures forall p :: p in r ==> |p| == Manhattan(f, t)
  {
    var d0, d1 := t.0 - f.0, t.1 - f.1;
    match VerticalLeg(d0)
    case None => (
      match HorizontalLeg(d1)
      case None => [[]]
      case Some((x, i)) => [Repeat(x, i)])
    case Some((x, i)) => (
      match HorizontalLeg(d1)
      case None => [Repeat(x, i)]
      case Some((y, j)) =>
        (if !IsForbidden(k, (f.0 + d0, f.1)) then [Repeat(x, i) + Repeat(y, j)] else []) +
        (if !IsForbidden(k, (f.0, f.1 + d1)) then [Repeat(y, j) + Repeat(x, i)] else []))
  }

  /** From a key to itself there is exactly the empty path. */
  lemma StepsToSelf(k: Key)
    ensures StepsTo(k, k) == [[]]
  {
  }

  /** The vertical leg from `f` to `t` as a direction and a count, the
      count zero when they share a row. */
  function Vertical(f: Pos, t: Pos): (Dir, nat)
  {
    if t.0 >= f.0 then (Down, t.0 - f.0) else (Up, f.0 - t.0)
  }

  function Horizontal(f: Pos, t: Pos): (Dir, nat)
  {
    if t.1 >= f.1 then (Right, t.1 - f.1) else (Left, f.1 - t.1)
  }

  /** The vertical leg, then the horizontal one. */
  function VerticalFirst(f: Pos, t: Pos): seq<Dir>
  {
    Repeat(Vertical(f, t).0, Vertical(f, t).1) + Repeat(Horizontal(f, t).0, Horizontal(f, t).1)
  }

  function HorizontalFirst(f: Pos, t: Pos): seq<Dir>
  {
    Repeat(Horizontal(f, t).0, Horizontal(f, t).1) + Repeat(Vertical(f, t).0, Vertical(f, t).1)
  }

  /** When the places differ in both row and column, the vertical-first
      path is there exactly when its corner is not the gap, and the
      horizontal-first one exactly when its corner is not; the two are
      different paths. */
  lemma RoutesCorners(k: Key, f: Pos, t: Pos)
    requires f.0 != t.0 && f.1 != t.1
    ensures VerticalFirst(f, t) in Routes(k, f, t) <==> (t.0, f.1) != Gap(k)
    ensures HorizontalFirst(f, t) in Routes(k, f, t) <==> (f.0, t.1) != Gap(k)
    ensures VerticalFirst(f, t) != HorizontalFirst(f, t)
  {
    var vf, hf := VerticalFirst(f, t), HorizontalFirst(f, t);
    assert vf[0] == Vertical(f, t).0 && hf[0] == Horizontal(f, t).0;
  }

  /** Each path is one of the two L-shapes (both the straight run when
      one leg is empty), an L taken only when its corner is not the gap. */
  lemma RoutesForm(k: Key, f: Pos, t: Pos, path: seq<Dir>)
    requires path in Routes(k, f, t)
    ensures path == VerticalFirst(f, t) || path == HorizontalFirst(f, t)
    ensures f.0 != t.0 && f.1 != t.1 && path == VerticalFirst(f, t) ==> (t.0, f.1) != Gap(k)
    ensures f.0 != t.0 && f.1 != t.1 && path == HorizontalFirst(f, t) ==> (f.0, t.1) != Gap(k)
  {
    var v, h := Vertical(f, t), Horizontal(f, t);
    if t.0 == f.0 {
      assert Repeat(v.0, v.1) == [];
      assert HorizontalFirst(f, t) == Repeat(h.0, h.1);
    } else if t.1 == f.1 {
      assert Repeat(h.0, h.1) == [];
      assert VerticalFirst(f, t) == Repeat(v.0, v.1);
    } else {
      RoutesCorners(k, f, t);
    }
  }

  /** Every path leads from `f` to `t`. */
  lemma RoutesLand(k: Key, f: Pos, t: Pos, path: seq<Dir>)
    requires path in Routes(k, f, t)
    ensures Land(f, path) == t
  {
    RoutesForm(k, f, t, path);
    if path == VerticalFirst(f, t) {
      VerticalFirstLands(f, t);
    } else {
      HorizontalFirstLands(f, t);
    }
  }

  lemma VerticalFirstLands(f: Pos, t: Pos)
    ensures Land(f, VerticalFirst(f, t)) == t
  {
    var v, h := Vertical(f, t), Horizontal(f, t);
    LegThenLeg(f, v.0, v.1, h.0, h.1);
    assert Ray(f, v.0, v.1) == (t.0, f.1);
  }

  lemma HorizontalFirstLands(f: Pos, t: Pos)
    ensures Land(f, HorizontalFirst(f, t)) == t
  {
    var v, h := Vertical(f, t), Horizontal(f, t);
    LegThenLeg(f, h.0, h.1, v.0, v.1);
    assert Ray(f, h.0, h.1) == (f.0, t.1);
  }

  /** Between two places of one keypad, every path stays on the keypad:
      the gap is a corner of the keypad's rectangle, so a leg could only
      cross it by ending there. */
  lemma RoutesStayOnPad(k: Key, f: Pos, t: Pos, path: seq<Dir>)
    requires OnPad(k, f) && OnPad(k, t)
    requires path in Routes(k, f, t)
    ensures forall n :: 0 <= n < |path| ==> OnPad(k, Walk(f, path)[n])
  {
    RoutesForm(k, f, t, path);
    if path == VerticalFirst(f, t) {
      assert (t.0, f.1) != Gap(k) by {
        if f.0 == t.0 {
          assert (t.0, f.1) == f;
        } else if f.1 == t.1 {
          assert (t.0, f.1) == t;
        }
      }
      VerticalFirstOnPad(k, f, t);
    } else {
      assert (f.0, t.1) != Gap(k) by {
        if f.0 == t.0 {
          assert (f.0, t.1) == t;
        } else if f.1 == t.1 {
          assert (f.0, t.1) == f;
        }
      }
      HorizontalFirstOnPad(k, f, t);
    }
  }

  lemma VerticalFirstOnPad(k: Key, f: Pos, t: Pos)
    requires OnPad(k, f) && OnPad(k, t) && (t.0, f.1) != Gap(k)
    ensures forall n :: 0 <= n < |VerticalFirst(f, t)| ==> OnPad(k, Walk(f, VerticalFirst(f, t))[n])
  {
    var v, h := Vertical(f, t), Horizontal(f, t);
    var c := (t.0, f.1);
    LegThenLeg(f, v.0, v.1, h.0, h.1);
    var path := VerticalFirst(f, t);
    forall n | 0 <= n < v.1
      ensures OnPad(k, Walk(f, path)[n])
    {
      VerticalRay(f, t, n + 1);
      LegPoint(k, f, c, Walk(f, path)[n]);
    }
    VerticalRay(f, t, v.1);
    forall n | v.1 <= n < |path|
      ensures OnPad(k, Walk(f, path)[n])
    {
      HorizontalRay(c, t, n - v.1 + 1);
      LegPoint(k, c, t, Walk(f, path)[n]);
    }
  }

  lemma HorizontalFirstOnPad(k: Key, f: Pos, t: Pos)
    requires OnPad(k, f) && OnPad(k, t) && (f.0, t.1) != Gap(k)
    ensures forall n :: 0 <= n < |HorizontalFirst(f, t)| ==> OnPad(k, Walk(f, HorizontalFirst(f, t))[n])
  {
    var v, h := Vertical(f, t), Horizontal(f, t);
    var c := (f.0, t.1);
    LegThenLeg(f, h.0, h.1, v.0, v.1);
    var path := HorizontalFirst(f, t);
    forall n | 0 <= n < h.1
      ensures OnPad(k, Walk(f, path)[n])
    {
      HorizontalRay(f, t, n + 1);
      LegPoint(k, f, c, Walk(f, path)[n]);
    }
    HorizontalRay(f, t, h.1);
    forall n | h.1 <= n < |path|
      ensures OnPad(k, Walk(f, path)[n])
    {
      VerticalRay(c, t, n - h.1 + 1);
      LegPoint(k, c, t, Walk(f, path)[n]);
    }
  }

  /** `m` steps of the vertical leg from `f` towards `t`. */
  lemma VerticalRay(f: Pos, t: Pos, m: nat)
    requires m <= Vertical(f, t).1
    ensures var p := Ray(f, Vertical(f, t).0, m);
      p.1 == f.1 && (if t.0 >= f.0 then p.0 == f.0 + m else p.0 == f.0 - m)
  {
  }

  lemma HorizontalRay(f: Pos, t: Pos, m: nat)
    requires m <= Horizontal(f, t).1
    ensures var p := Ray(f, Horizontal(f, t).0, m);
      p.0 == f.0 && (if t.1 >= f.1 then p.1 == f.1 + m else p.1 == f.1 - m)
  {
  }

  /** `x` lies past `a` on the way to `b`, `b` included. */
  predicate Past(a: int, x: int, b: int)
  {
    (a < x <= b) || (b <= x < a)
  }

  /** A place past `a` on the straight way to `b`, both in the keypad's
      rectangle and `b` off the gap, is off the gap too: the gap is at
      an end of its row and its column, so only an end of the way can be
      it. */
  lemma LegPoint(k: Key, a: Pos, b: Pos, p: Pos)
    requires InBox(k, a) && InBox(k, b) && b != Gap(k)
    requires (p.1 == a.1 == b.1 && Past(a.0, p.0, b.0)) || (p.0 == a.0 == b.0 && Past(a.1, p.1, b.1))
    ensures OnPad(k, p)
  {
  }

  /** Every path `steps_to` gives leads from the first key to the second
      and, on one keypad, never over the gap. */
  lemma StepsToWalks(from: Key, to: Key, path: seq<Dir>)
    requires path in StepsTo(from, to)
    ensures Land(Coords(from), path) == Coords(to)
    ensures SamePad(from, to) ==> forall n :: 0 <= n < |path| ==> OnPad(from, Walk(Coords(from), path)[n])
  {
    RoutesLand(from, Coords(from), Coords(to), path);
    if SamePad(from, to) {
      CoordsOnPad(from, to);
      CoordsOnPad(to, from);
      assert Gap(to) == Gap(from);
      RoutesStayOnPad(from, Coords(from), Coords(to), path);
    }
  }

  /** Two straight runs: the arm passes the first leg's places, then the
      second's, starting from the corner. */
  lemma LegThenLeg(p: Pos, x: Dir, i: nat, y: Dir, j: nat)
    ensures Land(p, Repeat(x, i) + Repeat(y, j)) == Ray(Ray(p, x, i), y, j)
    ensures forall k :: 0 <= k < i ==> Walk(p, Repeat(x, i) + Repeat(y, j))[k] == Ray(p, x, k + 1)
    ensures forall k :: i <= k < i + j ==> Walk(p, Repeat(x, i) + Repeat(y, j))[k] == Ray(Ray(p, x, i), y, k - i + 1)
  {
    WalkAppend(p, Repeat(x, i), Repeat(y, j));
    RepeatWalk(p, x, i);
    RepeatWalk(Ray(p, x, i), y, j);
  }

  // ----- presses down the chain of robots -----

  /** `steps_for_robot`: the fewest presses at the outer keypad that move
      this arm from `from` to `to` and press it, with `robot` directional
      keypads between; at the outermost, one press. */
  function StepsForRobot(from: Key, to: Key, robot: nat): (r: nat)
    ensures r >= 1
    ensures robot >= 1 ==> r >= Manhattan(Coords(from), Coords(to)) + 1
    decreases robot, 0
  {
    if robot == 0 then 1
    else
      var paths := StepsTo(from, to);
      var best := Cheapest(paths, robot - 1);
      var k :| 0 <= k < |paths| && best == Presses(Press, paths[k] + [Press], robot - 1);
      assert paths[k] in paths;
      best
  }

  /** The presses that type `keys` on a directional keypad whose arm is
      on `prev`, `robot` levels down: the cost of each move in turn. */
  function Presses(prev: Dir, keys: seq<Dir>, robot: nat): (r: nat)
    ensures r >= |keys|
    decreases robot, 1, |keys|
  {
    if |keys| == 0 then 0
    else StepsForRobot(DirKey(prev), DirKey(keys[0]), robot) + Presses(keys[0], keys[1..], robot)
  }

  /** The least cost among the paths, each typed from `A` and ended with
      a press of `A`. */
  function Cheapest(paths: seq<seq<Dir>>, robot: nat): (r: nat)
    requires |paths| >= 1
    ensures exists k :: 0 <= k < |paths| && r == Presses(Press, paths[k] + [Press], robot)
    ensures forall k :: 0 <= k < |paths| ==> r <= Presses(Press, paths[k] + [Press], robot)
    decreases robot, 2, |paths|
  {
    var here := Presses(Press, paths[0] + [Press], robot);
    if |paths| == 1 then here
    else
      var rest := Cheapest(paths[1..], robot);
      assert forall k :: 1 <= k < |paths| ==> paths[k] == paths[1..][k - 1];
      if here <= rest then here else rest
  }

  /** With the arm one level down: moving from `A` to `<` on a directional
      keypad takes `v<<A` at the keypad above it. */
  lemma StepsForRobotExample()
    ensures StepsForRobot(DirKey(Press), DirKey(Left), 1) == 4
  {
    var paths := StepsTo(DirKey(Press), DirKey(Left));
    assert paths == [Repeat(Down, 1) + Repeat(Left, 2)];
    assert paths[0] + [Press] == [Down, Left, Left, Press];
    assert Presses(Left, [Press], 0) == 1 by {
      assert [Press][1..] == [];
    }
    assert Presses(Left, [Left, Press], 0) == 2 by {
      assert [Left, Press][1..] == [Press];
    }
    assert Presses(Down, [Left, Left, Press], 0) == 3 by {
      assert [Left, Left, Press][1..] == [Left, Press];
    }
    assert Presses(Press, [Down, Left, Left, Press], 0) == 4 by {
      assert [Down, Left, Left, Press][1..] == [Left, Left, Press];
    }
    assert Cheapest(paths, 0) == 4;
  }

  // ----- reading the codes -----

  /** `Num::from_byte`; `None` where the source panics. */
  function NumOf(b: char): (r: Option<Num>)
    ensures r.Some? <==> Decimal.IsDigitChar(b) || b == 'A'
  {
    match b
    case '0' => Some(Zero)
    case '1' => Some(One)
    case '2' => Some(Two)
    case '3' => Some(Three)
    case '4' => Some(Four)
    case '5' => Some(Five)
    case '6' => Some(Six)
    case '7' => Some(Seven)
    case '8' => Some(Eight)
    case '9' => Some(Nine)
    case 'A' => Some(Enter)
    case _ => None
  }

  /** `Num::to_value`: a digit key's digit, `None` for `A`. */
  function ValueOf(n: Num): (r: Option<nat>)
    ensures r.Some? ==> r.value < 10
  {
    match n
    case Zero => Some(0)
    case One => Some(1)
    case Two => Some(2)
    case Three => Some(3)
    case Four => Some(4)
    case Five => Some(5)
    case Six => Some(6)
    case Seven => Some(7)
    case Eight => Some(8)
    case Nine => Some(9)
    case Enter => None
  }

  /** A digit byte reads as the key of its digit, and `A` as the key
      without one. */
  lemma DigitKeys(b: char)
    requires NumOf(b).Some?
    ensures Decimal.IsDigitChar(b) ==> ValueOf(NumOf(b).value) == Some(Decimal.DigitOf(b))
    ensures b == 'A' ==> ValueOf(NumOf(b).value) == None
  {
  }

  function Code(line: seq<char>): (r: Option<seq<Num>>)
    ensures r.Some? <==> forall i :: 0 <= i < |line| ==> NumOf(line[i]).Some?
    ensures r.Some? ==> |r.value| == |line| && forall i :: 0 <= i < |line| ==> r.value[i] == NumOf(line[i]).value
  {
    if |line| == 0 then Some([])
    else
      match (NumOf(line[0]), Code(line[1..]))
      case (Some(n), Some(rest)) => Some([n] + rest)
      case _ =>
        assert forall i :: 1 <= i < |line| ==> line[i] == line[1..][i - 1];
        None
  }

  /** The digit keys' values, in order, `A` left out. */
  function DigitsOf(code: seq<Num>): (ds: seq<nat>)
    ensures Decimal.IsDigitSeq(ds)
  {
    if |code| == 0 then []
    else
      var init := DigitsOf(code[..|code| - 1]);
      match ValueOf(code[|code| - 1])
      case None => init
      case Some(v) => init + [v]
  }

  /** The fold `acc * 10 + v` over the digit keys. */
  function Number(code: seq<Num>): (n: nat)
    ensures n == Decimal.Value(DigitsOf(code))
  {
    if |code| == 0 then 0
    else
      var init := Number(code[..|code| - 1]);
      match ValueOf(code[|code| - 1])
      case None => init
      case Some(v) => init * 10 + v
  }

  /** A code of digits ended by `A` has the number its digits spell. */
  lemma NumberOfCode(digits: seq<char>)
    requires Decimal.IsDecimalText(digits)
    ensures Code(digits + ['A']).Some? && Number(Code(digits + ['A']).value) == Decimal.Parse(digits)
  {
    DigitValuesOf(digits);
    var front := Code(digits).value;
    assert NumOf('A') == Some(Enter);
    CodeSnoc(digits, 'A');
    assert Code(digits + ['A']) == Some(front + [Enter]);
    EnterAddsNothing(front);
    assert Number(front) == Decimal.Value(Decimal.DigitValues(digits)) == Decimal.Parse(digits);
  }

  /** A final `A` adds no digit. */
  lemma EnterAddsNothing(front: seq<Num>)
    ensures DigitsOf(front + [Enter]) == DigitsOf(front)
    ensures Number(front + [Enter]) == Number(front)
  {
    var code := front + [Enter];
    assert code[..|code| - 1] == front;
  }

  /** A byte more reads as a key more. */
  lemma CodeSnoc(line: seq<char>, c: char)
    requires Code(line).Some? && NumOf(c).Some?
    ensures Code(line + [c]) == Some(Code(line).value + [NumOf(c).value])
  {
    var more := line + [c];
    assert forall i :: 0 <= i < |line| ==> more[i] == line[i];
    assert Code(more).Some?;
    var want := Code(line).value + [NumOf(c).value];
    assert forall i :: 0 <= i < |more| ==> Code(more).value[i] == want[i];
    assert Code(more).value == want;
  }

  lemma {:induction false} DigitValuesOf(digits: seq<char>)
    requires Decimal.IsDecimalText(digits)
    ensures Code(digits).Some? && DigitsOf(Code(digits).value) == Decimal.DigitValues(digits)
    decreases |digits|
  {
    if |digits| > 0 {
      var init, last := digits[..|digits| - 1], digits[|digits| - 1];
      assert digits == init + [last];
      DigitValuesOf(init);
      CodeSnoc(init, last);
      var code := Code(init).value + [NumOf(last).value];
      assert code[..|code| - 1] == Code(init).value;
      DigitKeys(last);
      DigitValuesSnoc(init, last);
    }
  }

  lemma DigitValuesSnoc(init: seq<char>, c: char)
    requires Decimal.IsDecimalText(init) && Decimal.IsDigitChar(c)
    ensures Decimal.DigitValues(init + [c]) == Decimal.DigitValues(init) + [Decimal.DigitOf(c)]
  {
  }

  /** The presses for a whole code, the arm starting on `A`. */
  function CodePresses(prev: Num, code: seq<Num>, robots: nat): (r: nat)
    ensures robots >= 1 ==> r >= |code|
    decreases |code|
  {
    if |code| == 0 then 0
    else StepsForRobot(NumKey(prev), NumKey(code[0]), robots) + CodePresses(code[0], code[1..], robots)
  }

  /** A line's complexity: the fewest presses times the code's number;
      `None` at a byte that is no numeric key. */
  function Complexity(line: seq<char>, robots: nat): (r: Option<nat>)
    ensures r.Some? <==> Code(line).Some?
  {
    match Code(line)
    case None => None
    case Some(code) => Some(Times(CodePresses(Enter, code, robots), Number(code)))
  }

  /** A line of decimal digits ended by `A` has the complexity of the
      presses for its keys times the number its digits spell, and with
      at least one robot that is at least one press per key times it. */
  lemma ComplexityOfCode(digits: seq<char>, robots: nat)
    requires Decimal.IsDecimalText(digits)
    ensures var line := digits + ['A'];
      Code(line).Some? &&
      Complexity(line, robots) == Some(CodePresses(Enter, Code(line).value, robots) * Decimal.Parse(digits))
    ensures robots >= 1 ==> Complexity(digits + ['A'], robots).value >= (|digits| + 1) * Decimal.Parse(digits)
  {
    NumberOfCode(digits);
    var line := digits + ['A'];
    var code := Code(line).value;
    var presses := CodePresses(Enter, code, robots);
    assert |code| == |digits| + 1;
    if robots >= 1 {
      MulLe(|digits| + 1, presses, Decimal.Parse(digits));
    }
  }

  /** The sum of the lines' complexities; `None` where a line panics. */
  function SumComplexities(lines: seq<seq<char>>, robots: nat): (r: Option<nat>)
    ensures r.Some? <==> forall line :: line in lines ==> Code(line).Some?
  {
    if |lines| == 0 then Some(0)
    else
      var c, rest := Complexity(lines[0], robots), SumComplexities(lines[1..], robots);
      assert forall line :: line in lines <==> line == lines[0] || line in lines[1..];
      if c.Some? && rest.Some? then Some(c.value + rest.value) else None
  }

  /** Each part: the sum over the input's lines, `None` exactly when
      some line holds a byte that is no numeric key. */
  function Part(input: seq<char>, robots: nat): (r: Option<nat>)
    ensures r.Some? <==> forall line :: line in Text.Split(input, '\n') ==> Code(line).Some?
  {
    SumComplexities(Text.Split(input, '\n'), robots)
  }

  /** Part one: three robots below the numeric keypad's arm (two
      directional keypads and the numeric one's own). */
  function Part1(input: seq<char>): (r: Option<nat>)
    ensures var lines := Text.Split(input, '\n'); r.Some? <==> forall line :: line in lines ==> Code(line).Some?
  {
    assert Part(input, 3) == SumComplexities(Text.Split(input, '\n'), 3);
    Part(input, 3)
  }

  /** Part two: twenty-six. */
  function Part2(input: seq<char>): (r: Option<nat>)
    ensures var lines := Text.Split(input, '\n'); r.Some? <==> forall line :: line in lines ==> Code(line).Some?
  {
    assert Part(input, 26) == SumComplexities(Text.Split(input, '\n'), 26);
    Part(input, 26)
  }
}
