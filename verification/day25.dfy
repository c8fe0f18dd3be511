/** Day 25: code chronicle. The input is a run of seven-row schematics,
    five columns wide, separated by empty lines. A schematic whose top row
    is empty is a key, one whose top row is filled is a lock; each becomes
    five column heights, and part one counts the distinct key and lock
    pairs whose heights add up to at most five in every column. */
module Day25 {
  import opened Common
  import Text

  /** The number of columns, and of height entries. */
  const Width: nat := 5

  /** The room a key and a lock share in each column. */
  const Room: nat := 5

  /** A schematic with its newline and the empty line after it: `6 * 7 + 1`. */
  const ChunkSize: nat := 6 * 7 + 1

  /** `1` where `line` shows `c` in column `i`, `0` otherwise. */
  function Hit(line: seq<char>, c: char, i: nat): nat
  {
    if i < |line| && line[i] == c then 1 else 0
  }

  /** How many of the first `n` rows show `c` in column `i`. */
  function Column(rows: seq<seq<char>>, c: char, i: nat, n: nat): (r: nat)
    requires n <= |rows|
    ensures r <= n
  {
    if n == 0 then 0 else Column(rows, c, i, n - 1) + Hit(rows[n - 1], c, i)
  }

  /** `c` does not appear to the right of the five columns, where the
      height array has no entry and indexing it panics. */
  predicate Confined(line: seq<char>, c: char)
  {
    forall j :: Width <= j < |line| ==> line[j] != c
  }

  /** The inner loop of `parse_lock` (`up`) and `parse_key` (not `up`):
      every `c` in the row adds one to, or takes one from, the height of
      its column. `None` where the source panics: a `c` past the fifth
      column, or a `u8` height taken below zero. */
  function MarkLine(h: seq<nat>, line: seq<char>, c: char, up: bool): (r: Option<seq<nat>>)
    requires |h| == Width
    ensures r.Some? <==> Confined(line, c) && (up || forall i :: 0 <= i < Width ==> h[i] >= Hit(line, c, i))
    ensures r.Some? ==> |r.value| == Width
    ensures r.Some? ==> forall i :: 0 <= i < Width ==> r.value[i] == if up then h[i] + Hit(line, c, i) else h[i] - Hit(line, c, i)
    decreases |line|
  {
    if |line| == 0 then Some(h)
    else
      var j := |line| - 1;
      var front := line[..j];
      assert forall i :: 0 <= i < j ==> Hit(line, c, i) == Hit(front, c, i);
      assert forall i :: j < i ==> Hit(line, c, i) == 0 && Hit(front, c, i) == 0;
      assert Hit(front, c, j) == 0;
      assert Confined(line, c) <==> Confined(front, c) && (j < Width || line[j] != c);
      match MarkLine(h, front, c, up)
      case None =>
        assert !up ==> forall i :: 0 <= i < Width ==> Hit(front, c, i) <= Hit(line, c, i);
        None
      case Some(g) =>
        if line[j] != c then Some(g)
        else if j >= Width then None
        else if up then Some(g[j := g[j] + 1])
        else if g[j] == 0 then None
        else Some(g[j := g[j] - 1])
  }

  /** Both loops of `parse_lock` and `parse_key` over the first `n` of
      the rows: each height moves by the number of those rows showing `c`
      in its column. */
  function MarkRows(h: seq<nat>, rows: seq<seq<char>>, c: char, up: bool, n: nat): (r: Option<seq<nat>>)
    requires |h| == Width && n <= |rows|
    ensures r.Some? <==> (forall k :: 0 <= k < n ==> Confined(rows[k], c)) && (up || forall i :: 0 <= i < Width ==> h[i] >= Column(rows, c, i, n))
    ensures r.Some? ==> |r.value| == Width
    ensures r.Some? ==> forall i :: 0 <= i < Width ==> r.value[i] == if up then h[i] + Column(rows, c, i, n) else h[i] - Column(rows, c, i, n)
  {
    if n == 0 then Some(h)
    else
      match MarkRows(h, rows, c, up, n - 1)
      case None => None
      case Some(g) => MarkLine(g, rows[n - 1], c, up)
  }

  /** `split(b'\n').skip(1).take(6)`: the six rows below the top one, or
      as many as there are. */
  function Rows(chunk: seq<char>): (r: seq<seq<char>>)
    ensures var lines := Text.Split(chunk, '\n');
      |r| <= 6 && |r| == (if |lines| < 7 then |lines| - 1 else 6) && forall k :: 0 <= k < |r| ==> r[k] == lines[k + 1]
  {
    var lines := Text.Split(chunk, '\n');
    lines[1..if |lines| < 7 then |lines| else 7]
  }

  /** `parse_lock`: the height of each column is the number of rows below
      the top one that show '#' there. */
  function ParseLock(chunk: seq<char>): (r: Option<seq<nat>>)
    ensures var rows := Rows(chunk);
      r.Some? <==> forall k :: 0 <= k < |rows| ==> Confined(rows[k], '#')
    ensures var rows := Rows(chunk);
      r.Some? ==> |r.value| == Width && forall i :: 0 <= i < Width ==> r.value[i] == Column(rows, '#', i, |rows|) <= 6
  {
    var rows := Rows(chunk);
    MarkRows([0, 0, 0, 0, 0], rows, '#', true, |rows|)
  }

  /** `parse_key`: the height of each column is five less the number of
      rows below the top one that show '.' there; a sixth '.' in a column
      takes the `u8` below zero and panics. */
  function ParseKey(chunk: seq<char>): (r: Option<seq<nat>>)
    ensures var rows := Rows(chunk);
      r.Some? <==> (forall k :: 0 <= k < |rows| ==> Confined(rows[k], '.')) && forall i :: 0 <= i < Width ==> Column(rows, '.', i, |rows|) <= Room
    ensures var rows := Rows(chunk);
      r.Some? ==> |r.value| == Width && forall i :: 0 <= i < Width ==> r.value[i] + Column(rows, '.', i, |rows|) == Room
  {
    var full := [Room, Room, Room, Room, Room];
    var rows := Rows(chunk);
    var n := |rows|;
    assert forall i :: 0 <= i < Width ==> full[i] == Room;
    assert (forall i :: 0 <= i < Width ==> full[i] >= Column(rows, '.', i, n)) <==> (forall i :: 0 <= i < Width ==> Column(rows, '.', i, n) <= Room);
    var r := MarkRows(full, rows, '.', false, n);
    assert r.Some? <==> (forall k :: 0 <= k < n ==> Confined(rows[k], '.')) && (forall i :: 0 <= i < Width ==> full[i] >= Column(rows, '.', i, n));
    r
  }

  /** The lock of the source's test: a filled top row, then columns of
      0, 5, 3, 4 and 3 '#', and the empty line after it. */
  lemma ParseLockExample()
    ensures ParseLock(Text.Join(["#####", ".####", ".####", ".####", ".#.#.", ".#...", ".....", "", ""], '\n')) == Some([0, 5, 3, 4, 3])
  {
    LockTestRows();
    LockTestColumns();
    var chunk := Text.Join(["#####", ".####", ".####", ".####", ".#.#.", ".#...", ".....", "", ""], '\n');
    var rows: seq<seq<char>> := [".####", ".####", ".####", ".#.#.", ".#...", "....."];
    assert Rows(chunk) == rows && |rows| == 6;
    assert forall k :: 0 <= k < |rows| ==> Confined(rows[k], '#');
    var r := ParseLock(chunk);
    assert r.Some?;
    assert r.value[0] == 0 && r.value[1] == 5 && r.value[2] == 3 && r.value[3] == 4 && r.value[4] == 3;
    SameHeights(r.value, [0, 5, 3, 4, 3]);
  }

  /** Heights agreeing in every column are equal. */
  lemma SameHeights(a: seq<nat>, b: seq<nat>)
    requires |a| == Width && |b| == Width
    requires a[0] == b[0] && a[1] == b[1] && a[2] == b[2] && a[3] == b[3] && a[4] == b[4]
    ensures a == b
  {
    assert forall i :: 0 <= i < Width ==> a[i] == b[i];
  }

  lemma LockTestRows()
    ensures Rows(Text.Join(["#####", ".####", ".####", ".####", ".#.#.", ".#...", ".....", "", ""], '\n')) == [".####", ".####", ".####", ".#.#.", ".#...", "....."]
  {
    Text.SplitJoin(["#####", ".####", ".####", ".####", ".#.#.", ".#...", ".....", "", ""], '\n');
  }

  lemma LockTestColumns()
    ensures forall k :: 0 <= k < 6 ==> Confined([".####", ".####", ".####", ".#.#.", ".#...", "....."][k], '#')
    ensures Column([".####", ".####", ".####", ".#.#.", ".#...", "....."], '#', 0, 6) == 0 && Column([".####", ".####", ".####", ".#.#.", ".#...", "....."], '#', 1, 6) == 5
    ensures Column([".####", ".####", ".####", ".#.#.", ".#...", "....."], '#', 2, 6) == 3 && Column([".####", ".####", ".####", ".#.#.", ".#...", "....."], '#', 3, 6) == 4
    ensures Column([".####", ".####", ".####", ".#.#.", ".#...", "....."], '#', 4, 6) == 3
  {
  }

  /** The key of the source's test: an empty top row, and a last row
      only four bytes long. */
  lemma ParseKeyExample()
    ensures ParseKey(Text.Join([".....", "#....", "#....", "#...#", "#.#.#", "#.###", "####"], '\n')) == Some([5, 0, 2, 1, 3])
  {
    KeyTestRows();
    KeyTestColumns();
    var chunk := Text.Join([".....", "#....", "#....", "#...#", "#.#.#", "#.###", "####"], '\n');
    var rows: seq<seq<char>> := ["#....", "#....", "#...#", "#.#.#", "#.###", "####"];
    assert Rows(chunk) == rows && |rows| == 6;
    assert forall k :: 0 <= k < |rows| ==> Confined(rows[k], '.');
    var r := ParseKey(chunk);
    assert r.Some?;
    assert r.value[0] == 5 && r.value[1] == 0 && r.value[2] == 2 && r.value[3] == 1 && r.value[4] == 3;
    SameHeights(r.value, [5, 0, 2, 1, 3]);
  }

  lemma KeyTestRows()
    ensures Rows(Text.Join([".....", "#....", "#....", "#...#", "#.#.#", "#.###", "####"], '\n')) == ["#....", "#....", "#...#", "#.#.#", "#.###", "####"]
  {
    Text.SplitJoin([".....", "#....", "#....", "#...#", "#.#.#", "#.###", "####"], '\n');
  }

  lemma KeyTestColumns()
    ensures forall k :: 0 <= k < 6 ==> Confined(["#....", "#....", "#...#", "#.#.#", "#.###", "####"][k], '.')
    ensures Column(["#....", "#....", "#...#", "#.#.#", "#.###", "####"], '.', 0, 6) == 0 && Column(["#....", "#....", "#...#", "#.#.#", "#.###", "####"], '.', 1, 6) == 5
    ensures Column(["#....", "#....", "#...#", "#.#.#", "#.###", "####"], '.', 2, 6) == 3 && Column(["#....", "#....", "#...#", "#.#.#", "#.###", "####"], '.', 3, 6) == 4
    ensures Column(["#....", "#....", "#...#", "#.#.#", "#.###", "####"], '.', 4, 6) == 2
  {
  }

  /** `chunks(6 * 7 + 1)`: the input cut into pieces of 43 bytes that,
      laid end to end, give back the input; every piece but the last is
      full and none is empty. */
  function Chunks(s: seq<char>): (r: seq<seq<char>>)
    ensures Text.Concat(r) == s
    ensures forall k :: 0 <= k < |r| ==> 0 < |r[k]| <= ChunkSize
    ensures forall k :: 0 <= k < |r| - 1 ==> |r[k]| == ChunkSize
    decreases |s|
  {
    if |s| == 0 then []
    else if |s| <= ChunkSize then
      assert [s][..0] == [];
      [s]
    else
      var tail := Chunks(s[ChunkSize..]);
      Text.ConcatFront(s[..ChunkSize], tail);
      assert s[..ChunkSize] + s[ChunkSize..] == s;
      [s[..ChunkSize]] + tail
  }

  /** There are as many chunks as the input's length divided by 43,
      rounded up. */
  lemma {:induction false} ChunksCount(s: seq<char>)
    ensures |Chunks(s)| == (|s| + ChunkSize - 1) / ChunkSize
    decreases |s|
  {
    if |s| > ChunkSize {
      var t := s[ChunkSize..];
      ChunksCount(t);
      assert Chunks(s) == [s[..ChunkSize]] + Chunks(t);
      DivStep(|t| + ChunkSize - 1);
    }
  }

  /** Adding a chunk's length adds one to the quotient. */
  lemma DivStep(a: nat)
    ensures (a + ChunkSize) / ChunkSize == a / ChunkSize + 1
  {
    var q, m := a / ChunkSize, a % ChunkSize;
    assert a + ChunkSize == (q + 1) * ChunkSize + m && 0 <= m < ChunkSize;
  }

  /** A parsed schematic: a key's or a lock's column heights. */
  datatype Schematic = Key(heights: seq<nat>) | Lock(heights: seq<nat>)

  /** The `match chunk[0]` of `part1`: '.' starts a key, '#' a lock, and
      anything else panics. */
  function Classify(chunk: seq<char>): (r: Option<Schematic>)
    requires |chunk| > 0
    ensures r.Some? ==> (r.value.Key? <==> chunk[0] == '.') && (r.value.Lock? <==> chunk[0] == '#')
    ensures chunk[0] != '.' && chunk[0] != '#' ==> r.None?
  {
    if chunk[0] == '.' then
      match ParseKey(chunk)
      case None => None
      case Some(h) => Some(Key(h))
    else if chunk[0] == '#' then
      match ParseLock(chunk)
      case None => None
      case Some(h) => Some(Lock(h))
    else None
  }

  /** The heights of the keys among the schematics, in order. */
  function Keys(schematics: seq<Schematic>): (r: seq<seq<nat>>)
    ensures forall h :: h in r <==> Key(h) in schematics
  {
    if |schematics| == 0 then []
    else
      var last := schematics[|schematics| - 1];
      var front := schematics[..|schematics| - 1];
      assert schematics == front + [last];
      Keys(front) + (if last.Key? then [last.heights] else [])
  }

  /** The heights of the locks among the schematics, in order. */
  function Locks(schematics: seq<Schematic>): (r: seq<seq<nat>>)
    ensures forall h :: h in r <==> Lock(h) in schematics
  {
    if |schematics| == 0 then []
    else
      var last := schematics[|schematics| - 1];
      var front := schematics[..|schematics| - 1];
      assert schematics == front + [last];
      Locks(front) + (if last.Lock? then [last.heights] else [])
  }

  /** No value occurs twice. */
  predicate Unique(s: seq<seq<nat>>)
  {
    forall i, j :: 0 <= i < j < |s| ==> s[i] != s[j]
  }

  /** `sort` followed by `dedup`: each value once. The order the sort
      puts them in does not change the count, so the first occurrences
      are kept in input order instead. */
  function Distinct(s: seq<seq<nat>>): (r: seq<seq<nat>>)
    ensures forall x :: x in r <==> x in s
    ensures Unique(r) && |r| <= |s|
  {
    if |s| == 0 then []
    else
      var front := Distinct(s[..|s| - 1]);
      var last := s[|s| - 1];
      assert forall x :: x in s <==> x in s[..|s| - 1] || x == last;
      if last in front then front else front + [last]
  }

  /** The filter of `part1`: zipped column by column, the key and the
      lock never add up to more than five. */
  predicate Fits(key: seq<nat>, lock: seq<nat>)
  {
    forall i :: 0 <= i < |key| && i < |lock| ==> key[i] + lock[i] <= Room
  }

  /** The locks the key fits. */
  function Matches(key: seq<nat>, locks: seq<seq<nat>>): (n: nat)
    ensures n <= |locks|
  {
    if |locks| == 0 then 0
    else Matches(key, locks[..|locks| - 1]) + (if Fits(key, locks[|locks| - 1]) then 1 else 0)
  }

  /** `cartesian_product(..).filter(..).count()`: the key and lock pairs
      that fit; over distinct keys and locks, the number of such pairs. */
  function CountFits(keys: seq<seq<nat>>, locks: seq<seq<nat>>): (n: nat)
    ensures n <= Times(|keys|, |locks|)
    ensures Unique(keys) && Unique(locks) ==> n == |FitPairs(keys, locks)|
  {
    if |keys| == 0 then
      assert FitPairs(keys, locks) == {};
      0
    else
      var front := keys[..|keys| - 1];
      var last := keys[|keys| - 1];
      assert Times(|keys|, |locks|) == Times(|front|, |locks|) + |locks|;
      var n := CountFits(front, locks) + Matches(last, locks);
      assert Unique(keys) && Unique(locks) ==> n == |FitPairs(keys, locks)| by {
        if Unique(keys) && Unique(locks) {
          MatchesCard(last, locks);
          FitPairsSnoc(keys, locks);
        }
      }
      n
  }

  /** The pairs of a key from `keys` and a lock from `locks` that fit. */
  function FitPairs(keys: seq<seq<nat>>, locks: seq<seq<nat>>): set<(seq<nat>, seq<nat>)>
  {
    set key, lock | key in keys && lock in locks && Fits(key, lock) :: (key, lock)
  }

  /** The pairs of `key` with a lock from `locks` that it fits. */
  function FitRow(key: seq<nat>, locks: seq<seq<nat>>): set<(seq<nat>, seq<nat>)>
  {
    set lock | lock in locks && Fits(key, lock) :: (key, lock)
  }

  /** Over distinct locks, `Matches` counts the pairs the key fits. */
  lemma {:induction false} MatchesCard(key: seq<nat>, locks: seq<seq<nat>>)
    requires Unique(locks)
    ensures Matches(key, locks) == |FitRow(key, locks)|
  {
    if |locks| > 0 {
      var front := locks[..|locks| - 1];
      var last := locks[|locks| - 1];
      MatchesCard(key, front);
      assert last !in front;
      assert locks == front + [last];
      if Fits(key, last) {
        assert FitRow(key, locks) == FitRow(key, front) + {(key, last)};
      } else {
        assert FitRow(key, locks) == FitRow(key, front);
      }
    }
  }

  /** Splitting off the last key splits off its row of pairs. */
  lemma FitPairsSnoc(keys: seq<seq<nat>>, locks: seq<seq<nat>>)
    requires |keys| > 0 && Unique(keys)
    ensures var front, last := keys[..|keys| - 1], keys[|keys| - 1];
      |FitPairs(keys, locks)| == |FitPairs(front, locks)| + |FitRow(last, locks)|
  {
    var front, last := keys[..|keys| - 1], keys[|keys| - 1];
    assert last !in front;
    assert keys == front + [last];
    assert FitPairs(keys, locks) == FitPairs(front, locks) + FitRow(last, locks);
    assert FitPairs(front, locks) !! FitRow(last, locks);
  }

  /** The count does not depend on the order of the keys and of the
      locks: any two orderings of the same distinct keys and locks fit
      the same number of times, so sorting before counting changes
      nothing. */
  lemma CountFitsOrderFree(keys: seq<seq<nat>>, locks: seq<seq<nat>>, keys2: seq<seq<nat>>, locks2: seq<seq<nat>>)
    requires Unique(keys) && Unique(locks) && Unique(keys2) && Unique(locks2)
    requires forall k :: k in keys <==> k in keys2
    requires forall l :: l in locks <==> l in locks2
    ensures CountFits(keys, locks) == CountFits(keys2, locks2)
  {
    assert FitPairs(keys, locks) == FitPairs(keys2, locks2);
  }

  /** Every chunk is a key or a lock. */
  predicate AllClassify(chunks: seq<seq<char>>)
    requires forall k :: 0 <= k < |chunks| ==> |chunks[k]| > 0
  {
    forall k :: 0 <= k < |chunks| ==> Classify(chunks[k]).Some?
  }

  /** `schematics` holds, in order, what each chunk classifies as. */
  predicate ClassifiedAs(chunks: seq<seq<char>>, schematics: seq<Schematic>)
    requires forall k :: 0 <= k < |chunks| ==> |chunks[k]| > 0
  {
    |schematics| == |chunks| && forall k :: 0 <= k < |chunks| ==> Some(schematics[k]) == Classify(chunks[k])
  }

  /** A list of chunks classifies exactly when its first one does and
      the rest do. */
  lemma AllClassifyFront(chunks: seq<seq<char>>)
    requires |chunks| > 0 && forall k :: 0 <= k < |chunks| ==> |chunks[k]| > 0
    ensures AllClassify(chunks) <==> Classify(chunks[0]).Some? && AllClassify(chunks[1..])
  {
    if Classify(chunks[0]).Some? && AllClassify(chunks[1..]) {
      forall k | 1 <= k < |chunks|
        ensures Classify(chunks[k]).Some?
      {
        assert chunks[k] == chunks[1..][k - 1];
      }
    }
  }

  lemma ClassifiedAsFront(chunks: seq<seq<char>>, first: Schematic, rest: seq<Schematic>)
    requires |chunks| > 0 && forall k :: 0 <= k < |chunks| ==> |chunks[k]| > 0
    requires Classify(chunks[0]) == Some(first) && ClassifiedAs(chunks[1..], rest)
    ensures ClassifiedAs(chunks, [first] + rest)
  {
    var all := [first] + rest;
    assert |all| == |chunks|;
    forall k | 0 <= k < |chunks|
      ensures Some(all[k]) == Classify(chunks[k])
    {
      if k > 0 {
        assert chunks[k] == chunks[1..][k - 1] && all[k] == rest[k - 1];
      }
    }
  }

  /** Every chunk classified, in order; `None` as soon as one of them
      panics. */
  function ClassifyAll(chunks: seq<seq<char>>): (r: Option<seq<Schematic>>)
    requires forall k :: 0 <= k < |chunks| ==> |chunks[k]| > 0
    ensures r.Some? <==> AllClassify(chunks)
    ensures r.Some? ==> ClassifiedAs(chunks, r.value)
    decreases |chunks|
  {
    if |chunks| == 0 then Some([])
    else
      var first := Classify(chunks[0]);
      var rest := ClassifyAll(chunks[1..]);
      AllClassifyFront(chunks);
      if first.None? || rest.None? then None
      else
        ClassifiedAsFront(chunks, first.value, rest.value);
        Some([first.value] + rest.value)
  }

  /** The schematics of the input in order, each chunk classified;
      `None` where one of them panics. */
  function Schematics(input: seq<char>): (r: Option<seq<Schematic>>)
    ensures r.Some? <==> AllClassify(Chunks(input))
    ensures r.Some? ==> ClassifiedAs(Chunks(input), r.value)
  {
    ClassifyAll(Chunks(input))
  }

  /** `part1`: the number of distinct key and lock pairs that fit;
      `None` where the source panics. */
  function Part1(input: seq<char>): (r: Option<nat>)
    ensures r.Some? <==> AllClassify(Chunks(input))
    ensures r.Some? ==> var schematics := Schematics(input).value;
      r.value == |FitPairs(Keys(schematics), Locks(schematics))|
  {
    match Schematics(input)
    case None => None
    case Some(schematics) =>
      var keys, locks := Distinct(Keys(schematics)), Distinct(Locks(schematics));
      assert FitPairs(keys, locks) == FitPairs(Keys(schematics), Locks(schematics));
      Some(CountFits(keys, locks))
  }

  /** What part one computes: the number of distinct pairs of a key and
      a lock in the input that fit, at most the product of the numbers of
      keys and of locks. */
  lemma Part1Meaning(input: seq<char>)
    requires Part1(input).Some?
    ensures var schematics := Schematics(input).value;
      Part1(input).value == |FitPairs(Keys(schematics), Locks(schematics))| <= Times(|Keys(schematics)|, |Locks(schematics)|)
  {
    var schematics := Schematics(input).value;
    var keys, locks := Distinct(Keys(schematics)), Distinct(Locks(schematics));
    assert Times(|keys|, |locks|) <= Times(|Keys(schematics)|, |Locks(schematics)|) by {
      MulLe(|keys|, |Keys(schematics)|, |locks|);
      MulLe(|locks|, |Locks(schematics)|, |Keys(schematics)|);
    }
  }
}
