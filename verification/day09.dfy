/** Day 9: a disk map alternates file lengths and free-space lengths.
    Part 1 moves single blocks from the end into the leftmost gaps; part 2
    moves whole files, highest id first, into the leftmost gap that fits. */
module Day09 {
  import opened Common

  /** `byte - b'0'` on a `u8`: a byte below '0' overflows, which panics in
      a debug build; bytes above '9' give lengths over 9. */
  function Counts(input: seq<char>): (r: Option<seq<nat>>)
    ensures r.Some? <==> forall k :: 0 <= k < |input| ==> '0' <= input[k]
    ensures r.Some? ==> (|r.value| == |input| &&
      forall k :: 0 <= k < |input| ==> r.value[k] == input[k] as int - '0' as int)
  {
    if |input| == 0 then Some([])
    else if input[0] < '0' then None
    else
      match Counts(input[1..])
      case None => None
      case Some(rest) =>
        assert forall k :: 1 <= k < |input| ==> input[k] == input[1..][k - 1];
        Some([input[0] as int - '0' as int] + rest)
  }

  // ----- part 1: the block-by-block layout -----

  /** A disk block: `Some(id)` holds part of file `id`, `None` is free. */
  type Disk = seq<Option<nat>>

  function Repeat<T>(x: T, n: nat): (r: seq<T>)
    ensures |r| == n
    ensures forall k :: 0 <= k < n ==> r[k] == x
  {
    if n == 0 then [] else [x] + Repeat(x, n - 1)
  }

  /** The expansion loop: file `id` gets `counts[0]` blocks, then come
      `counts[1]` free blocks, and the next file gets id `id + 1`. */
  function Expand(counts: seq<nat>, id: nat): (disk: Disk)
    ensures |disk| == Sum(counts)
    decreases |counts|
  {
    if |counts| == 0 then []
    else if |counts| == 1 then
      assert counts == [] + [counts[0]];
      Repeat(Some(id), counts[0])
    else
      SumFront(counts);
      Repeat(Some(id), counts[0]) + Repeat(None, counts[1]) + Expand(counts[2..], id + 1)
  }

  lemma SumFront(counts: seq<nat>)
    requires |counts| >= 2
    ensures Sum(counts) == counts[0] + counts[1] + Sum(counts[2..])
  {
    assert counts == [counts[0], counts[1]] + counts[2..];
    SumAppend([counts[0], counts[1]], counts[2..]);
    assert [counts[0], counts[1]][..1] == [counts[0]];
    assert [counts[0]][..0] == [];
  }

  /** File ids appear in increasing order along the disk, from `id` up. */
  lemma {:induction false} ExpandOrdered(counts: seq<nat>, id: nat)
    ensures forall k :: 0 <= k < |Expand(counts, id)| && Expand(counts, id)[k].Some? ==>
      id <= Expand(counts, id)[k].value < id + (|counts| + 1) / 2
    ensures forall i, j ::
      (0 <= i < j < |Expand(counts, id)| && Expand(counts, id)[i].Some? && Expand(counts, id)[j].Some?) ==>
      Expand(counts, id)[i].value <= Expand(counts, id)[j].value
    decreases |counts|
  {
    if |counts| >= 2 {
      ExpandOrdered(counts[2..], id + 1);
      var here := Repeat(Some(id), counts[0]) + Repeat(None, counts[1]);
      var rest := Expand(counts[2..], id + 1);
      assert Expand(counts, id) == here + rest;
      assert forall k :: 0 <= k < |here| && here[k].Some? ==> here[k].value == id;
    }
  }

  /** The indices from `k` on whose block is used (`used`) or free
      (`!used`), in increasing order: the two stacks the expansion fills. */
  function Where(disk: Disk, used: bool, k: nat): (r: seq<nat>)
    requires k <= |disk|
    ensures forall x :: 0 <= x < |r| ==> k <= r[x] < |disk| && disk[r[x]].Some? == used
    ensures forall x, y :: 0 <= x < y < |r| ==> r[x] < r[y]
    ensures forall i :: k <= i < |disk| && disk[i].Some? == used ==> i in r
    decreases |disk| - k
  {
    if k == |disk| then []
    else if disk[k].Some? == used then [k] + Where(disk, used, k + 1)
    else Where(disk, used, k + 1)
  }

  function Swap(disk: Disk, i: nat, j: nat): (r: Disk)
    requires i < |disk| && j < |disk|
    ensures |r| == |disk| && r[i] == disk[j] && r[j] == disk[i]
    ensures forall k :: 0 <= k < |disk| && k != i && k != j ==> r[k] == disk[k]
    ensures multiset(r) == multiset(disk)
  {
    disk[i := disk[j]][j := disk[i]]
  }

  /** The compaction loop: the lowest free index `frees[0]` takes the
      block at the highest used index, until there is none or it lies left
      of the gap. */
  function Compact(disk: Disk, frees: seq<nat>, files: seq<nat>): (r: Disk)
    requires forall x :: 0 <= x < |frees| ==> frees[x] < |disk|
    requires forall x :: 0 <= x < |files| ==> files[x] < |disk|
    ensures |r| == |disk| && multiset(r) == multiset(disk)
    decreases |frees|
  {
    if |frees| == 0 || |files| == 0 then disk
    else
      var e, n := frees[0], files[|files| - 1];
      if n < e then disk
      else Compact(Swap(disk, e, n), frees[1..], files[..|files| - 1])
  }

  /** No used block after a free one. */
  predicate Packed(disk: Disk)
  {
    forall i, j :: 0 <= i < j < |disk| && disk[i].None? ==> disk[j].None?
  }

  predicate Ascending(s: seq<nat>)
  {
    forall x, y :: 0 <= x < y < |s| ==> s[x] < s[y]
  }

  /** The lowest pending free index, or the disk length. */
  function Lowest(disk: Disk, frees: seq<nat>): int
  {
    if |frees| == 0 then |disk| else frees[0]
  }

  /** The highest pending used index, or -1. */
  function Highest(files: seq<nat>): int
  {
    if |files| == 0 then -1 else files[|files| - 1]
  }

  /** What holds between two rounds of the compaction loop: the stacks
      list free and used blocks; every block already moved into sits left
      of the pending gaps, every block emptied right of the pending files,
      and moved-into blocks lie left of emptied ones. */
  ghost predicate CompactInv(disk: Disk, frees: seq<nat>, files: seq<nat>)
  {
    Ascending(frees) && Ascending(files) &&
    (forall x :: 0 <= x < |frees| ==> frees[x] < |disk| && disk[frees[x]].None?) &&
    (forall x :: 0 <= x < |files| ==> files[x] < |disk| && disk[files[x]].Some?) &&
    (forall i :: 0 <= i < |disk| && i !in frees && i !in files && disk[i].Some? ==> i < Lowest(disk, frees)) &&
    (forall i :: 0 <= i < |disk| && i !in frees && i !in files && disk[i].None? ==> i > Highest(files)) &&
    (forall i, j ::
      (0 <= i < |disk| && 0 <= j < |disk| && i !in frees && i !in files && j !in frees && j !in files &&
       disk[i].Some? && disk[j].None?) ==> i < j)
  }

  lemma {:induction false} CompactPacks(disk: Disk, frees: seq<nat>, files: seq<nat>)
    requires CompactInv(disk, frees, files)
    ensures Packed(Compact(disk, frees, files))
    decreases |frees|
  {
    if |frees| == 0 || |files| == 0 || files[|files| - 1] < frees[0] {
      CompactStops(disk, frees, files);
    } else {
      CompactStep(disk, frees, files);
      CompactPacks(Swap(disk, frees[0], files[|files| - 1]), frees[1..], files[..|files| - 1]);
    }
  }

  /** Once the last file block lies left of the first gap, the disk is packed. */
  lemma CompactStops(disk: Disk, frees: seq<nat>, files: seq<nat>)
    requires CompactInv(disk, frees, files)
    requires |frees| == 0 || |files| == 0 || files[|files| - 1] < frees[0]
    ensures Packed(disk)
  {
    forall i, j | 0 <= i < j < |disk| && disk[i].None? ensures disk[j].None? {
      PendingBounds(disk, frees, files, i);
      PendingBounds(disk, frees, files, j);
    }
  }

  /** Pending gaps lie at or right of the first, pending file blocks at
      or left of the last. */
  lemma PendingBounds(disk: Disk, frees: seq<nat>, files: seq<nat>, i: int)
    requires Ascending(frees) && Ascending(files)
    ensures i in frees ==> Lowest(disk, frees) <= i
    ensures i in files ==> i <= Highest(files)
  {
    if i in frees {
      var x :| 0 <= x < |frees| && frees[x] == i;
      assert x == 0 || frees[0] < frees[x];
    }
    if i in files {
      var y :| 0 <= y < |files| && files[y] == i;
      assert y == |files| - 1 || files[y] < files[|files| - 1];
    }
  }

  /** One swap keeps the loop's invariant. */
  lemma CompactStep(disk: Disk, frees: seq<nat>, files: seq<nat>)
    requires CompactInv(disk, frees, files)
    requires |frees| > 0 && |files| > 0 && frees[0] <= files[|files| - 1]
    ensures CompactInv(Swap(disk, frees[0], files[|files| - 1]), frees[1..], files[..|files| - 1])
  {
    StepStacks(disk, frees, files);
    StepPlaced(disk, frees, files);
    StepOrdered(disk, frees, files);
  }

  /** After a swap the shortened stacks still list free and used blocks. */
  lemma StepStacks(disk: Disk, frees: seq<nat>, files: seq<nat>)
    requires CompactInv(disk, frees, files)
    requires |frees| > 0 && |files| > 0 && frees[0] <= files[|files| - 1]
    ensures var disk', frees', files' := Swap(disk, frees[0], files[|files| - 1]), frees[1..], files[..|files| - 1];
      Ascending(frees') && Ascending(files') &&
      (forall x :: 0 <= x < |frees'| ==> frees'[x] < |disk'| && disk'[frees'[x]].None?) &&
      (forall x :: 0 <= x < |files'| ==> files'[x] < |disk'| && disk'[files'[x]].Some?)
  {
    var e, n := frees[0], files[|files| - 1];
    assert disk[e].None? && disk[n].Some?;
    assert forall x :: 0 <= x < |frees| - 1 ==> frees[1..][x] == frees[x + 1] && e < frees[x + 1];
    assert forall x :: 0 <= x < |files| - 1 ==> files[..|files| - 1][x] == files[x] && files[x] < n;
  }

  /** After a swap the moved-into block sits left of the pending gaps and
      the emptied one right of the pending files. */
  lemma StepPlaced(disk: Disk, frees: seq<nat>, files: seq<nat>)
    requires CompactInv(disk, frees, files)
    requires |frees| > 0 && |files| > 0 && frees[0] <= files[|files| - 1]
    ensures var disk', frees', files' := Swap(disk, frees[0], files[|files| - 1]), frees[1..], files[..|files| - 1];
      (forall i :: 0 <= i < |disk'| && i !in frees' && i !in files' && disk'[i].Some? ==> i < Lowest(disk', frees')) &&
      (forall i :: 0 <= i < |disk'| && i !in frees' && i !in files' && disk'[i].None? ==> i > Highest(files'))
  {
    var e, n := frees[0], files[|files| - 1];
    var disk', frees', files' := Swap(disk, e, n), frees[1..], files[..|files| - 1];
    StepMembers(disk, frees, files);
    assert Lowest(disk, frees) == e && Highest(files) == n;
    assert e < Lowest(disk', frees');
    assert Highest(files') < n;
  }

  /** After a swap every block off the stacks that is used lies left of
      every one that is free. */
  lemma StepOrdered(disk: Disk, frees: seq<nat>, files: seq<nat>)
    requires CompactInv(disk, frees, files)
    requires |frees| > 0 && |files| > 0 && frees[0] <= files[|files| - 1]
    ensures var disk', frees', files' := Swap(disk, frees[0], files[|files| - 1]), frees[1..], files[..|files| - 1];
      forall i, j ::
        (0 <= i < |disk'| && 0 <= j < |disk'| && i !in frees' && i !in files' && j !in frees' && j !in files' &&
         disk'[i].Some? && disk'[j].None?) ==> i < j
  {
    var e, n := frees[0], files[|files| - 1];
    StepMembers(disk, frees, files);
    assert Lowest(disk, frees) == e && Highest(files) == n;
  }

  /** The stacks lose exactly their first gap and their last file block. */
  lemma StepMembers(disk: Disk, frees: seq<nat>, files: seq<nat>)
    requires CompactInv(disk, frees, files)
    requires |frees| > 0 && |files| > 0 && frees[0] <= files[|files| - 1]
    ensures disk[frees[0]].None? && disk[files[|files| - 1]].Some?
    ensures forall i :: i in frees[1..] ==> i in frees && frees[0] < i
    ensures forall i :: i in files[..|files| - 1] ==> i in files && i < files[|files| - 1]
    ensures forall i :: i in frees ==> i == frees[0] || i in frees[1..]
    ensures forall i :: i in files ==> i == files[|files| - 1] || i in files[..|files| - 1]
  {
  }

  /** Before any move every block is on one of the two stacks. */
  lemma CompactStarts(disk: Disk)
    ensures CompactInv(disk, Where(disk, false, 0), Where(disk, true, 0))
  {
  }

  /** `Σ index · id` over the blocks before the first free one. */
  function PrefixChecksum(disk: Disk, i: nat): nat
    requires i <= |disk|
    decreases |disk| - i
  {
    if i == |disk| || disk[i].None? then 0 else i * disk[i].value + PrefixChecksum(disk, i + 1)
  }

  /** `Σ index · id` over every used block: the checksum the puzzle defines. */
  function Checksum(disk: Disk, i: nat): nat
    requires i <= |disk|
    decreases |disk| - i
  {
    if i == |disk| then 0
    else (match disk[i] case None => 0 case Some(id) => i * id) + Checksum(disk, i + 1)
  }

  /** On a packed disk stopping at the first free block loses nothing. */
  lemma {:induction false} PackedChecksum(disk: Disk, i: nat)
    requires Packed(disk) && i <= |disk|
    ensures PrefixChecksum(disk, i) == Checksum(disk, i)
    decreases |disk| - i
  {
    if i < |disk| {
      if disk[i].None? {
        AllFreeChecksum(disk, i + 1);
      } else {
        PackedChecksum(disk, i + 1);
      }
    }
  }

  lemma {:induction false} AllFreeChecksum(disk: Disk, i: nat)
    requires i <= |disk| && forall k :: i <= k < |disk| ==> disk[k].None?
    ensures Checksum(disk, i) == 0
    decreases |disk| - i
  {
    if i < |disk| {
      AllFreeChecksum(disk, i + 1);
    }
  }

  /** The disk after `part1`'s compaction. */
  function Compacted(counts: seq<nat>): (r: Disk)
    ensures Packed(r)
    ensures |r| == Sum(counts) && multiset(r) == multiset(Expand(counts, 0))
  {
    var disk := Expand(counts, 0);
    CompactStarts(disk);
    CompactPacks(disk, Where(disk, false, 0), Where(disk, true, 0));
    Compact(disk, Where(disk, false, 0), Where(disk, true, 0))
  }

  /** `part1`: the checksum after block compaction; the loop that stops at
      the first free block sums every file block. */
  function Part1(input: seq<char>): (r: Option<nat>)
    ensures r.Some? <==> Counts(input).Some?
    ensures r.Some? ==> r.value == Checksum(Compacted(Counts(input).value), 0)
  {
    match Counts(input)
    case None => None
    case Some(counts) =>
      PackedChecksum(Compacted(counts), 0);
      Some(PrefixChecksum(Compacted(counts), 0))
  }

  // ----- part 2: whole files -----

  datatype File = File(id: nat, start: nat, len: nat)

  function End(f: File): nat
  {
    f.start + f.len
  }

  /** The file list is sorted by start and no two files overlap. */
  predicate Laid(files: seq<File>)
  {
    forall i :: 0 <= i < |files| - 1 ==> End(files[i]) <= files[i + 1].start
  }

  lemma {:induction false} LaidOrdered(files: seq<File>, i: nat, j: nat)
    requires Laid(files) && i < j < |files|
    ensures End(files[i]) <= files[j].start
    decreases j - i
  {
    if j > i + 1 {
      LaidOrdered(files, i, j - 1);
    }
  }

  predicate DistinctIds(files: seq<File>)
  {
    forall i, j :: 0 <= i < j < |files| ==> files[i].id != files[j].id
  }

  /** The parsing loop of `part2`: file `id` starts at `start`, after
      every earlier file and gap. */
  function Files(counts: seq<nat>, id: nat, start: nat): (r: seq<File>)
    ensures Laid(r) && DistinctIds(r)
    ensures |r| == (|counts| + 1) / 2
    ensures forall k :: 0 <= k < |r| ==> r[k].id == id + k && start <= r[k].start
    decreases |counts|
  {
    if |counts| == 0 then []
    else if |counts| == 1 then [File(id, start, counts[0])]
    else
      var rest := Files(counts[2..], id + 1, start + counts[0] + counts[1]);
      [File(id, start, counts[0])] + rest
  }

  /** Files `i..k` all start left of `start`. */
  predicate StartLeft(files: seq<File>, i: nat, k: nat, start: nat)
  {
    forall x :: i <= x <= k && x < |files| ==> files[x].start < start
  }

  /** The search loop: the first `i` whose file starts left of `start`
      and is followed by a gap of at least `len`; the search gives up at
      the first file that does not start left of `start`. */
  function FindGap(files: seq<File>, start: nat, len: nat, i: nat): (r: Option<nat>)
    requires Laid(files)
    ensures r.Some? ==> (i <= r.value < |files| - 1 && files[r.value].start < start &&
      len <= files[r.value + 1].start - End(files[r.value]))
    ensures r.Some? ==> forall k :: i <= k < r.value ==> files[k + 1].start - End(files[k]) < len
    ensures r.None? ==> forall k :: i <= k < |files| - 1 && StartLeft(files, i, k, start) ==>
      files[k + 1].start - End(files[k]) < len
    decreases |files| - i
  {
    if i + 1 >= |files| then None
    else if files[i].start >= start then
      assert forall k :: i <= k < |files| - 1 ==> !StartLeft(files, i, k, start);
      None
    else if len <= files[i + 1].start - End(files[i]) then Some(i)
    else
      var r := FindGap(files, start, len, i + 1);
      assert forall k :: i + 1 <= k < |files| - 1 && StartLeft(files, i, k, start) ==> StartLeft(files, i + 1, k, start);
      r
  }

  /** The rebuilding loop: every file except `id`, with `moved` pushed
      right after index `at`. */
  function Rebuild(files: seq<File>, id: nat, at: nat, moved: File): (r: seq<File>)
    decreases |files|
  {
    if |files| == 0 then []
    else
      var init := Rebuild(files[..|files| - 1], id, at, moved);
      var last := files[|files| - 1];
      if last.id == id then init
      else if |files| - 1 == at then init + [last, moved]
      else init + [last]
  }

  function Without(files: seq<File>, id: nat): (r: seq<File>)
    ensures |r| <= |files|
    decreases |files|
  {
    if |files| == 0 then []
    else Without(files[..|files| - 1], id) + (if files[|files| - 1].id == id then [] else [files[|files| - 1]])
  }

  lemma {:induction false} RebuildBefore(files: seq<File>, id: nat, at: nat, moved: File)
    requires |files| <= at
    ensures Rebuild(files, id, at, moved) == Without(files, id)
    decreases |files|
  {
    if |files| > 0 {
      RebuildBefore(files[..|files| - 1], id, at, moved);
    }
  }

  /** When the moved file sits right of `at`, rebuilding inserts it once. */
  lemma {:induction false} RebuildSplit(files: seq<File>, id: nat, at: nat, moved: File)
    requires at < |files| && files[at].id != id
    ensures Rebuild(files, id, at, moved) == Without(files[..at + 1], id) + [moved] + Without(files[at + 1..], id)
    decreases |files|
  {
    if |files| - 1 == at {
      RebuildBefore(files[..at], id, at, moved);
      assert files[..at + 1] == files;
      assert files[..at + 1][..at] == files[..at];
      assert files[at + 1..] == [];
    } else {
      var init := files[..|files| - 1];
      RebuildSplit(init, id, at, moved);
      assert init[..at + 1] == files[..at + 1];
      WithoutSnoc(files[at + 1..]);
      assert files[at + 1..][..|files[at + 1..]| - 1] == init[at + 1..];
    }
  }

  lemma WithoutSnoc(files: seq<File>)
    ensures forall id :: |files| > 0 ==> (Without(files, id) ==
      Without(files[..|files| - 1], id) + (if files[|files| - 1].id == id then [] else [files[|files| - 1]]))
  {
  }

  /** Dropping a file whose id is absent changes nothing; dropping one
      whose id is unique removes exactly that file. */
  lemma {:induction false} WithoutAbsent(files: seq<File>, id: nat)
    requires forall k :: 0 <= k < |files| ==> files[k].id != id
    ensures Without(files, id) == files
    decreases |files|
  {
    if |files| > 0 {
      WithoutAbsent(files[..|files| - 1], id);
    }
  }

  lemma {:induction false} WithoutOne(files: seq<File>, m: nat)
    requires m < |files| && DistinctIds(files)
    ensures Without(files, files[m].id) == files[..m] + files[m + 1..]
    decreases |files|
  {
    var id := files[m].id;
    if m == |files| - 1 {
      WithoutAbsent(files[..m], id);
      assert files[m + 1..] == [];
    } else {
      WithoutOne(files[..|files| - 1], m);
      assert files[..|files| - 1][..m] == files[..m];
      assert files[..|files| - 1][m + 1..] + [files[|files| - 1]] == files[m + 1..];
    }
  }

  /** One round of the outer loop of `part2`, for the file `f`. */
  function Move(files: seq<File>, f: File): (r: seq<File>)
    requires Laid(files)
  {
    match FindGap(files, f.start, f.len, 0)
    case None => files
    case Some(i) => Rebuild(files, f.id, i, File(f.id, End(files[i]), f.len))
  }

  /** The list after moving `files[m]` into the gap after `files[i]`. */
  function Spliced(files: seq<File>, i: nat, m: nat, moved: File): seq<File>
    requires i < m < |files|
  {
    files[..i + 1] + [moved] + (files[i + 1..m] + files[m + 1..])
  }

  /** A found gap lies left of the file being moved, and the rebuilt list
      is the old one with that file taken out and put after the gap's left
      neighbour. */
  lemma MoveSplit(files: seq<File>, f: File, i: nat) returns (m: nat)
    requires Laid(files) && DistinctIds(files) && f in files
    requires FindGap(files, f.start, f.len, 0) == Some(i)
    ensures i < m < |files| && files[m] == f
    ensures Move(files, f) == Spliced(files, i, m, File(f.id, End(files[i]), f.len))
  {
    m :| 0 <= m < |files| && files[m] == f;
    GapBeforeFile(files, i, m);
    var moved := File(f.id, End(files[i]), f.len);
    assert Move(files, f) == Rebuild(files, f.id, i, moved);
    RebuildSpliced(files, i, m, moved);
  }

  /** A gap whose left neighbour starts before file `m` lies left of it. */
  lemma GapBeforeFile(files: seq<File>, i: nat, m: nat)
    requires Laid(files) && i < |files| && m < |files| && files[i].start < files[m].start
    ensures i < m
  {
    if m < i {
      LaidOrdered(files, m, i);
    }
  }

  /** Rebuilding with the file at `m` moved after `i < m` splices it. */
  lemma RebuildSpliced(files: seq<File>, i: nat, m: nat, moved: File)
    requires DistinctIds(files) && i < m < |files| && moved.id == files[m].id
    ensures Rebuild(files, moved.id, i, moved) == Spliced(files, i, m, moved)
  {
    var id := moved.id;
    assert files[i].id != id;
    RebuildSplit(files, id, i, moved);
    WithoutAbsent(files[..i + 1], id);
    var tail := files[i + 1..];
    assert tail[m - i - 1] == files[m];
    assert DistinctIds(tail);
    WithoutOne(tail, m - i - 1);
    TailSlices(files, i, m);
  }

  lemma TailSlices(files: seq<File>, i: nat, m: nat)
    requires i < m < |files|
    ensures files[i + 1..][..m - i - 1] == files[i + 1..m]
    ensures files[i + 1..][m - i - 1 + 1..] == files[m + 1..]
  {
  }

  /** The (id, length) pairs of the files: what a move must keep. */
  function KeySet(files: seq<File>): set<(nat, nat)>
  {
    set g | g in files :: (g.id, g.len)
  }

  lemma SplicedKeys(files: seq<File>, i: nat, m: nat, moved: File)
    requires i < m < |files| && moved.id == files[m].id && moved.len == files[m].len
    ensures KeySet(Spliced(files, i, m, moved)) == KeySet(files)
    ensures forall g :: g in files && g.id != moved.id ==> g in Spliced(files, i, m, moved)
  {
    var r := Spliced(files, i, m, moved);
    forall g | g in files && g != files[m] ensures g in r {
      var k :| 0 <= k < |files| && files[k] == g;
      if k <= i {
        assert r[k] == g;
      } else if k < m {
        assert r[k + 1] == g;
      } else {
        assert r[k] == g;
      }
    }
    forall g | g in r && g != moved ensures g in files {
      var k :| 0 <= k < |r| && r[k] == g;
      if k <= i {
        assert files[k] == g;
      } else if k <= m {
        assert files[k - 1] == g;
      } else {
        assert files[k] == g;
      }
    }
    assert moved in r && files[m] in files;
  }

  lemma SplicedLaid(files: seq<File>, i: nat, m: nat, moved: File)
    requires Laid(files) && i < m < |files| && moved.start == End(files[i]) &&
      moved.len <= files[i + 1].start - End(files[i])
    ensures Laid(Spliced(files, i, m, moved))
  {
    var r := Spliced(files, i, m, moved);
    forall k | 0 <= k < |r| - 1 ensures End(r[k]) <= r[k + 1].start {
      if k < i {
        assert r[k] == files[k] && r[k + 1] == files[k + 1];
      } else if k == i {
        assert r[k] == files[i] && r[k + 1] == moved;
      } else if k == i + 1 {
        if i + 1 < m {
          assert r[k + 1] == files[i + 1];
        } else {
          assert r[k + 1] == files[m + 1];
          LaidOrdered(files, i + 1, m + 1);
        }
      } else if k < m {
        assert r[k] == files[k - 1] && r[k + 1] == files[k];
      } else if k == m {
        assert r[k] == files[m - 1] && r[k + 1] == files[m + 1];
        LaidOrdered(files, m - 1, m + 1);
      } else {
        assert r[k] == files[k] && r[k + 1] == files[k + 1];
      }
    }
  }

  /** Where entry `k` of the spliced list came from. */
  function Source(i: nat, m: nat, k: nat): nat
  {
    if k <= i then k else if k == i + 1 then m else if k <= m then k - 1 else k
  }

  lemma SplicedDistinct(files: seq<File>, i: nat, m: nat, moved: File)
    requires DistinctIds(files) && i < m < |files| && moved.id == files[m].id
    ensures DistinctIds(Spliced(files, i, m, moved))
  {
    var r := Spliced(files, i, m, moved);
    forall k | 0 <= k < |r| ensures Source(i, m, k) < |files| && r[k].id == files[Source(i, m, k)].id {
      if k <= i {
        assert r[k] == files[k];
      } else if k == i + 1 {
      } else if k <= m {
        assert r[k] == files[k - 1];
      } else {
        assert r[k] == files[k];
      }
    }
    forall x, y | 0 <= x < y < |r| ensures r[x].id != r[y].id {
      assert Source(i, m, x) != Source(i, m, y);
    }
  }

  /** A move keeps every file with its length, keeps the list laid out,
      and moves `f` only left, into the gap it was checked against. */
  lemma MoveKeeps(files: seq<File>, f: File)
    requires Laid(files) && DistinctIds(files) && f in files
    ensures Laid(Move(files, f)) && DistinctIds(Move(files, f))
    ensures |Move(files, f)| == |files|
    ensures KeySet(Move(files, f)) == KeySet(files)
    ensures forall g :: g in files && g.id != f.id ==> g in Move(files, f)
    ensures forall g :: g in Move(files, f) && g.id == f.id ==> g.start <= f.start
  {
    match FindGap(files, f.start, f.len, 0)
    case None =>
      forall g | g in files && g.id == f.id ensures g == f {
        var x :| 0 <= x < |files| && files[x] == g;
        var y :| 0 <= y < |files| && files[y] == f;
      }
    case Some(i) =>
      var m := MoveSplit(files, f, i);
      var moved := File(f.id, End(files[i]), f.len);
      SplicedKeys(files, i, m, moved);
      SplicedLaid(files, i, m, moved);
      SplicedDistinct(files, i, m, moved);
      var r := Spliced(files, i, m, moved);
      LaidOrdered(files, i, m);
      assert r[i + 1] == moved && moved.start <= f.start;
      forall g | g in r && g.id == f.id ensures g == moved {
        var k :| 0 <= k < |r| && r[k] == g;
        assert k == i + 1;
      }
  }

  /** The outer loop of `part2`: each file of the original list, from the
      last, gets one chance to move. */
  function MoveAll(files: seq<File>, todo: seq<File>): (r: seq<File>)
    requires Laid(files) && DistinctIds(files) && DistinctIds(todo)
    requires forall k :: 0 <= k < |todo| ==> todo[k] in files
    ensures Laid(r) && DistinctIds(r) && |r| == |files|
    ensures KeySet(r) == KeySet(files)
    decreases |todo|
  {
    if |todo| == 0 then files
    else
      var f := todo[|todo| - 1];
      MoveKeeps(files, f);
      var next := Move(files, f);
      assert forall k :: 0 <= k < |todo| - 1 ==> todo[k] in next by {
        forall k | 0 <= k < |todo| - 1 ensures todo[k] in next {
          assert todo[k].id != f.id;
        }
      }
      MoveAll(next, todo[..|todo| - 1])
  }

  /** `Σ id · (start + k)` over the blocks of one file. */
  function FileChecksum(f: File, k: nat): nat
    requires k <= f.len
    decreases f.len - k
  {
    if k == f.len then 0 else f.id * (f.start + k) + FileChecksum(f, k + 1)
  }

  /** 0 + 1 + ... + (n - 1). */
  function Tri(n: nat): nat
  {
    if n == 0 then 0 else Tri(n - 1) + (n - 1)
  }

  lemma {:induction false} TriClosed(n: nat)
    ensures 2 * Tri(n) == n * (n - 1)
  {
    if n > 0 {
      TriClosed(n - 1);
    }
  }

  /** A file's checksum in closed form: its id times the sum of its block
      positions. */
  lemma {:induction false} FileChecksumClosed(f: File, k: nat)
    requires k <= f.len
    ensures FileChecksum(f, k) == f.id * ((f.len - k) * f.start + Tri(f.len) - Tri(k))
    decreases f.len - k
  {
    if k < f.len {
      FileChecksumClosed(f, k + 1);
      TriBelow(k + 1, f.len);
      var n := f.len - k;
      assert (n - 1) * f.start + f.start == n * f.start;
      assert f.id * (f.start + k) + f.id * ((n - 1) * f.start + Tri(f.len) - Tri(k + 1)) ==
        f.id * (f.start + k + (n - 1) * f.start + Tri(f.len) - Tri(k + 1));
    }
  }

  lemma {:induction false} TriBelow(k: nat, n: nat)
    requires k <= n
    ensures Tri(k) <= Tri(n)
    decreases n - k
  {
    if k < n {
      TriBelow(k, n - 1);
    }
  }

  function FilesChecksum(files: seq<File>): nat
  {
    if |files| == 0 then 0 else FilesChecksum(files[..|files| - 1]) + FileChecksum(files[|files| - 1], 0)
  }

  /** `Σ id · position` over the blocks of the files, each file's block
      positions summed in closed form: `len` blocks from `start` add up to
      `len · start + (0 + 1 + ... + (len - 1))`. */
  function ClosedSum(files: seq<File>): nat
  {
    if |files| == 0 then 0
    else
      var f := files[|files| - 1];
      ClosedSum(files[..|files| - 1]) + Times(f.id, Times(f.len, f.start) + Tri(f.len))
  }

  /** The block-by-block loop of `part2` computes the closed form. */
  lemma {:induction false} FilesChecksumClosed(files: seq<File>)
    ensures FilesChecksum(files) == ClosedSum(files)
  {
    if |files| > 0 {
      FilesChecksumClosed(files[..|files| - 1]);
      FileChecksumClosed(files[|files| - 1], 0);
    }
  }

  /** `part2`: the checksum after whole-file moves. */
  function Part2(input: seq<char>): (r: Option<nat>)
    ensures r.Some? <==> Counts(input).Some?
    ensures r.Some? ==> r.value == ClosedSum(MoveAll(Files(Counts(input).value, 0, 0), Files(Counts(input).value, 0, 0)))
  {
    match Counts(input)
    case None => None
    case Some(counts) =>
      var files := Files(counts, 0, 0);
      FilesChecksumClosed(MoveAll(files, files));
      Some(FilesChecksum(MoveAll(files, files)))
  }

  /** After the moves the files are the original ones, each with its
      length, still laid out without overlap. */
  lemma Part2Layout(counts: seq<nat>)
    ensures var files := Files(counts, 0, 0);
      var r := MoveAll(files, files);
      Laid(r) && DistinctIds(r) && |r| == (|counts| + 1) / 2 && KeySet(r) == KeySet(files)
  {
  }
}
