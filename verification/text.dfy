/** Splitting puzzle text the way Rust's `slice::split` does: every
    separator ends one piece and starts the next, so `n` separators give
    `n + 1` pieces, some of them possibly empty. */
module Text {
  import opened Common


  function Split(s: seq<char>, sep: char): (r: seq<seq<char>>)
    ensures |r| >= 1
    ensures forall i :: 0 <= i < |r| ==> sep !in r[i]
    ensures |r| == Occurrences(s, sep) + 1
    ensures Join(r, sep) == s
    decreases |s|
  {
    if |s| == 0 then [[]]
    else
      var prefix := Split(s[..|s| - 1], sep);
      var last := s[|s| - 1];
      assert s == s[..|s| - 1] + [last];
      if last == sep then
        var r := prefix + [[]];
        assert r[..|r| - 1] == prefix;
        r
      else
        var r := prefix[..|prefix| - 1] + [prefix[|prefix| - 1] + [last]];
        assert r[..|r| - 1] == prefix[..|prefix| - 1];
        JoinLast(prefix, sep, [last]);
        r
  }

  function Occurrences(s: seq<char>, c: char): nat
  {
    if |s| == 0 then 0
    else Occurrences(s[..|s| - 1], c) + (if s[|s| - 1] == c then 1 else 0)
  }

  /** The inverse of `Split`: the pieces glued back with the separator. */
  function Join(pieces: seq<seq<char>>, sep: char): seq<char>
    requires |pieces| >= 1
  {
    if |pieces| == 1 then pieces[0]
    else Join(pieces[..|pieces| - 1], sep) + [sep] + pieces[|pieces| - 1]
  }

  lemma {:induction false} JoinLast(pieces: seq<seq<char>>, sep: char, extra: seq<char>)
    requires |pieces| >= 1
    ensures Join(pieces[..|pieces| - 1] + [pieces[|pieces| - 1] + extra], sep) == Join(pieces, sep) + extra
  {
    var q := pieces[..|pieces| - 1] + [pieces[|pieces| - 1] + extra];
    if |pieces| > 1 {
      assert q[..|q| - 1] == pieces[..|pieces| - 1];
    }
  }

  lemma SplitSnocSeparator(s: seq<char>, sep: char)
    ensures Split(s + [sep], sep) == Split(s, sep) + [[]]
  {
    assert (s + [sep])[..|s + [sep]| - 1] == s;
  }

  lemma SplitSnocOther(s: seq<char>, sep: char, c: char)
    requires c != sep
    ensures var p := Split(s, sep);
      Split(s + [c], sep) == p[..|p| - 1] + [p[|p| - 1] + [c]]
  {
    assert (s + [c])[..|s + [c]| - 1] == s;
  }

  /** Splitting is injective on separator-free pieces: joining and
      splitting again gives back exactly the pieces. */
  lemma {:induction false} SplitJoin(pieces: seq<seq<char>>, sep: char)
    requires |pieces| >= 1
    requires forall i :: 0 <= i < |pieces| ==> sep !in pieces[i]
    ensures Split(Join(pieces, sep), sep) == pieces
    decreases |pieces|, |pieces[|pieces| - 1]|
  {
    var last := pieces[|pieces| - 1];
    if |pieces| == 1 {
      SplitNoSeparator(pieces[0], sep);
    } else if |last| == 0 {
      var init := pieces[..|pieces| - 1];
      SplitJoin(init, sep);
      SplitJoinEmptyLast(pieces, sep);
    } else {
      var shorter := pieces[..|pieces| - 1] + [last[..|last| - 1]];
      assert shorter[..|shorter| - 1] == pieces[..|pieces| - 1];
      SplitJoin(shorter, sep);
      SplitJoinLongerLast(pieces, shorter, sep);
    }
  }

  lemma {:induction false} SplitJoinEmptyLast(pieces: seq<seq<char>>, sep: char)
    requires |pieces| >= 2 && pieces[|pieces| - 1] == []
    requires Split(Join(pieces[..|pieces| - 1], sep), sep) == pieces[..|pieces| - 1]
    ensures Split(Join(pieces, sep), sep) == pieces
  {
    var init := pieces[..|pieces| - 1];
    assert Join(pieces, sep) == Join(init, sep) + [sep];
    SplitSnocSeparator(Join(init, sep), sep);
    assert pieces == init + [[]];
  }

  lemma {:induction false} SplitJoinLongerLast(pieces: seq<seq<char>>, shorter: seq<seq<char>>, sep: char)
    requires |pieces| >= 2 && |pieces[|pieces| - 1]| > 0
    requires sep !in pieces[|pieces| - 1]
    requires shorter == pieces[..|pieces| - 1] + [pieces[|pieces| - 1][..|pieces[|pieces| - 1]| - 1]]
    requires Split(Join(shorter, sep), sep) == shorter
    ensures Split(Join(pieces, sep), sep) == pieces
  {
    var last := pieces[|pieces| - 1];
    var c := last[|last| - 1];
    JoinLast(shorter, sep, [c]);
    assert last[..|last| - 1] + [c] == last;
    assert shorter[..|shorter| - 1] + [shorter[|shorter| - 1] + [c]] == pieces;
    assert c in last;
    SplitSnocOther(Join(shorter, sep), sep, c);
  }

  lemma {:induction false} SplitNoSeparator(s: seq<char>, sep: char)
    requires sep !in s
    ensures Split(s, sep) == [s]
    decreases |s|
  {
    if |s| > 0 {
      SplitNoSeparator(s[..|s| - 1], sep);
      assert s[..|s| - 1] + [s[|s| - 1]] == s;
    }
  }

  /** The lines of the text, as `split(|&b| b == b'\n')` produces them. */
  function Lines(s: seq<char>): (r: seq<seq<char>>)
    ensures |r| >= 1
  {
    Split(s, '\n')
  }

  /** `str::lines`: the text split at newlines, where a final newline
      ends the last line instead of starting an empty one, so that empty
      text has no lines at all. */
  function StrLines(s: seq<char>): (r: seq<seq<char>>)
    ensures |s| == 0 <==> r == []
    ensures forall i :: 0 <= i < |r| ==> '\n' !in r[i]
    ensures |s| > 0 ==> Join(r, '\n') + (if s[|s| - 1] == '\n' then "\n" else []) == s
  {
    if |s| == 0 then []
    else if s[|s| - 1] == '\n' then
      assert s[..|s| - 1] + "\n" == s;
      Split(s[..|s| - 1], '\n')
    else
      assert Join(Split(s, '\n'), '\n') + [] == Join(Split(s, '\n'), '\n');
      Split(s, '\n')
  }

  /** A final newline makes no difference to `str::lines`. */
  lemma StrLinesFinalNewline(s: seq<char>)
    requires |s| > 0 && s[|s| - 1] != '\n'
    ensures StrLines(s + "\n") == StrLines(s)
  {
    assert (s + "\n")[..|s|] == s;
  }

  /** The bytes before the first newline; its length is the `cols` that
      several grids compute with `take_while(|&b| b != b'\n').count()`. */
  function FirstLine(s: seq<char>): (r: seq<char>)
    ensures '\n' !in r
    ensures r <= s
    ensures |r| < |s| ==> s[|r|] == '\n'
  {
    if |s| == 0 || s[0] == '\n' then [] else [s[0]] + FirstLine(s[1..])
  }

  /** The text with every newline removed, as the grids' `filter(|&b| b != b'\n')`. */
  function RemoveNewlines(s: seq<char>): (r: seq<char>)
    ensures '\n' !in r
    ensures |r| <= |s|
  {
    if |s| == 0 then []
    else RemoveNewlines(s[..|s| - 1]) + (if s[|s| - 1] == '\n' then [] else [s[|s| - 1]])
  }

  lemma {:induction false} RemoveNewlinesAppend(a: seq<char>, b: seq<char>)
    ensures RemoveNewlines(a + b) == RemoveNewlines(a) + RemoveNewlines(b)
    decreases |b|
  {
    if |b| > 0 {
      assert (a + b)[..|a + b| - 1] == a + b[..|b| - 1];
      RemoveNewlinesAppend(a, b[..|b| - 1]);
    } else {
      assert a + b == a;
    }
  }

  lemma {:induction false} RemoveNewlinesNone(s: seq<char>)
    requires '\n' !in s
    ensures RemoveNewlines(s) == s
    decreases |s|
  {
    if |s| > 0 {
      var init, last := s[..|s| - 1], s[|s| - 1];
      assert '\n' !in init by {
        forall k | 0 <= k < |init| ensures init[k] != '\n' {
          assert init[k] == s[k];
        }
      }
      RemoveNewlinesNone(init);
      assert last != '\n' by {
        assert last == s[|s| - 1];
      }
      assert RemoveNewlines(s) == RemoveNewlines(init) + [last];
      assert s == init + [last];
    }
  }

  /** The lines of a grid laid end to end, as the cell vectors hold them. */
  function Concat(lines: seq<seq<char>>): (r: seq<char>)
  {
    if |lines| == 0 then [] else Concat(lines[..|lines| - 1]) + lines[|lines| - 1]
  }

  /** Concatenation read from the front: the first line, then the rest. */
  lemma {:induction false} ConcatFront(first: seq<char>, rest: seq<seq<char>>)
    ensures Concat([first] + rest) == first + Concat(rest)
    decreases |rest|
  {
    if |rest| > 0 {
      var lines := [first] + rest;
      assert lines[..|lines| - 1] == [first] + rest[..|rest| - 1];
      ConcatFront(first, rest[..|rest| - 1]);
    } else {
      assert [first] + rest == [first];
      assert [first][..0] == [];
    }
  }

  /** Lines of equal width `cols`, none holding a newline. */
  predicate Rectangular(lines: seq<seq<char>>, cols: nat)
  {
    forall i :: 0 <= i < |lines| ==> |lines[i]| == cols && '\n' !in lines[i]
  }

  /** Row-major indexing: cell (r, c) of a rectangular text sits at
      r * cols + c of the concatenated lines. */
  lemma {:induction false} ConcatIndex(lines: seq<seq<char>>, cols: nat, r: nat, c: nat)
    requires Rectangular(lines, cols) && r < |lines| && c < cols
    ensures |Concat(lines)| == |lines| * cols
    ensures 0 <= r * cols + c < |Concat(lines)| && Concat(lines)[r * cols + c] == lines[r][c]
    decreases |lines|
  {
    RowIndexBound(r, c, |lines|, cols);
    var init := lines[..|lines| - 1];
    assert Rectangular(init, cols);
    ConcatLength(init, cols);
    if r < |lines| - 1 {
      ConcatIndex(init, cols, r, c);
      assert r * cols + c < |init| * cols by {
        assert (r + 1) * cols <= |init| * cols;
      }
    } else {
      assert r * cols == |init| * cols;
    }
  }

  lemma {:induction false} ConcatLength(lines: seq<seq<char>>, cols: nat)
    requires Rectangular(lines, cols)
    ensures |Concat(lines)| == |lines| * cols
    decreases |lines|
  {
    if |lines| > 0 {
      ConcatLength(lines[..|lines| - 1], cols);
    }
  }

  lemma {:induction false} JoinFront(lines: seq<seq<char>>, sep: char)
    requires |lines| >= 2
    ensures Join(lines, sep) == lines[0] + [sep] + Join(lines[1..], sep)
    decreases |lines|
  {
    if |lines| > 2 {
      var init := lines[..|lines| - 1];
      JoinFront(init, sep);
      assert init[1..] == lines[1..][..|lines| - 2];
    } else {
      assert lines[1..] == [lines[1]];
      assert lines[..1] == [lines[0]];
    }
  }

  /** Without its newlines, a text of lines is their concatenation. */
  lemma {:induction false} RemoveNewlinesJoin(lines: seq<seq<char>>)
    requires |lines| >= 1
    requires forall i :: 0 <= i < |lines| ==> '\n' !in lines[i]
    ensures RemoveNewlines(Join(lines, '\n')) == Concat(lines)
    decreases |lines|
  {
    var n := |lines|;
    if n == 1 {
      RemoveNewlinesNone(lines[0]);
      assert lines[..0] == [];
    } else {
      var init := lines[..n - 1];
      var ji := Join(init, '\n');
      RemoveNewlinesJoin(init);
      assert Join(lines, '\n') == ji + ['\n'] + lines[n - 1];
      RemoveNewlinesAppend(ji + ['\n'], lines[n - 1]);
      RemoveNewlinesAppend(ji, ['\n']);
      assert RemoveNewlines(['\n']) == [] by {
        assert ['\n'][..0] == [];
      }
      RemoveNewlinesNone(lines[n - 1]);
      var a := RemoveNewlines(ji);
      assert a == Concat(init);
      assert RemoveNewlines(ji + ['\n']) == a + [];
      assert a + [] == a;
      assert RemoveNewlines(Join(lines, '\n')) == a + lines[n - 1];
      assert Concat(lines) == Concat(init) + lines[n - 1];
    }
  }

  lemma {:induction false} FirstLineAppend(a: seq<char>, b: seq<char>)
    requires '\n' !in a
    requires |b| == 0 || b[0] == '\n'
    ensures FirstLine(a + b) == a
    decreases |a|
  {
    if |a| > 0 {
      assert (a + b)[1..] == a[1..] + b;
      assert '\n' !in a[1..] by {
        forall k | 0 <= k < |a| - 1 ensures a[1..][k] != '\n' {
          assert a[1..][k] == a[k + 1];
        }
      }
      FirstLineAppend(a[1..], b);
      assert (a + b)[0] == a[0] && a[0] != '\n';
      assert FirstLine(a + b) == [a[0]] + FirstLine(a[1..] + b);
      assert [a[0]] + a[1..] == a;
    } else {
      assert a + b == b;
    }
  }

  /** The width read from the first line of a text of lines is the
      width of its first line. */
  lemma FirstLineJoin(lines: seq<seq<char>>)
    requires |lines| >= 1 && '\n' !in lines[0]
    ensures FirstLine(Join(lines, '\n')) == lines[0]
  {
    if |lines| >= 2 {
      var rest := ['\n'] + Join(lines[1..], '\n');
      assert Join(lines, '\n') == lines[0] + rest by {
        JoinFront(lines, '\n');
      }
      FirstLineAppend(lines[0], rest);
    } else {
      FirstLineAppend(lines[0], []);
      assert lines[0] + [] == lines[0];
    }
  }

  /** Each byte of `text` read through `f`, or `None` at the first byte
      `f` rejects, where the source panics. */
  function MapBytes<T>(text: seq<char>, f: char -> Option<T>): (r: Option<seq<T>>)
    ensures r.Some? <==> forall k :: 0 <= k < |text| ==> f(text[k]).Some?
    ensures r.Some? ==> |r.value| == |text| && forall k :: 0 <= k < |text| ==> r.value[k] == f(text[k]).value
  {
    if |text| == 0 then Some([])
    else
      var front, last := MapBytes(text[..|text| - 1], f), f(text[|text| - 1]);
      if front.None? then
        var k :| 0 <= k < |text| - 1 && f(text[..|text| - 1][k]).None?;
        assert f(text[k]).None?;
        None
      else if last.None? then None
      else Some(front.value + [last.value])
  }

  /** Cell (r, c) of a rectangular grid is byte c of row r, read through
      `f`. */
  lemma MapAt<T>(rows: seq<seq<char>>, cols: nat, f: char -> Option<T>, cells: seq<T>, r: nat, c: nat)
    requires Rectangular(rows, cols) && r < |rows| && c < cols
    requires MapBytes(Concat(rows), f) == Some(cells)
    ensures 0 <= r * cols + c < |cells| && Some(cells[r * cols + c]) == f(rows[r][c])
  {
    ConcatIndex(rows, cols, r, c);
    RowIndexBound(r, c, |rows|, cols);
    MapBytesAt(Concat(rows), f, cells, r * cols + c);
  }

  lemma MapBytesAt<T>(text: seq<char>, f: char -> Option<T>, cells: seq<T>, k: nat)
    requires MapBytes(text, f) == Some(cells) && k < |text|
    ensures k < |cells| && Some(cells[k]) == f(text[k])
  {
  }

  /** The first line is the first piece of the split on newlines. */
  lemma FirstLineSplit(s: seq<char>)
    ensures FirstLine(s) == Split(s, '\n')[0]
  {
    FirstLineJoin(Split(s, '\n'));
  }

  /** The index of the last `b` of a line. */
  function LastIndex(line: seq<char>, b: char): (r: Option<nat>)
    ensures r.Some? <==> b in line
    ensures r.Some? ==> r.value < |line| && line[r.value] == b && b !in line[r.value + 1..]
  {
    if |line| == 0 then None
    else if line[|line| - 1] == b then Some(|line| - 1)
    else
      var r := LastIndex(line[..|line| - 1], b);
      if r.Some? then
        assert line[r.value + 1..] == line[..|line| - 1][r.value + 1..] + [line[|line| - 1]];
        r
      else
        assert line == line[..|line| - 1] + [line[|line| - 1]];
        r
  }

  /** The (row, column) of the last `b` in reading order, or (0, 0) when
      there is none: where a marker ends up when each occurrence
      overwrites the one before. */
  function LastPosition(rows: seq<seq<char>>, b: char): (p: (int, int))
    ensures (exists r :: 0 <= r < |rows| && b in rows[r]) ==>
      0 <= p.0 < |rows| && 0 <= p.1 < |rows[p.0]| && rows[p.0][p.1] == b
    ensures (forall r :: 0 <= r < |rows| ==> b !in rows[r]) ==> p == (0, 0)
  {
    if |rows| == 0 then (0, 0)
    else
      var last := LastIndex(rows[|rows| - 1], b);
      if last.Some? then (|rows| - 1, last.value)
      else
        var front := rows[..|rows| - 1];
        assert forall r :: 0 <= r < |front| ==> front[r] == rows[r];
        LastPosition(front, b)
  }

  /** No `b` follows the one `LastPosition` finds. */
  lemma {:induction false} LastPositionIsLast(rows: seq<seq<char>>, b: char)
    requires exists r :: 0 <= r < |rows| && b in rows[r]
    ensures var p := LastPosition(rows, b);
      (forall r :: p.0 < r < |rows| ==> b !in rows[r]) && b !in rows[p.0][p.1 + 1..]
  {
    if LastIndex(rows[|rows| - 1], b).None? {
      var front := rows[..|rows| - 1];
      var r :| 0 <= r < |rows| && b in rows[r];
      assert r < |front| && front[r] == rows[r];
      LastPositionIsLast(front, b);
    }
  }
}
