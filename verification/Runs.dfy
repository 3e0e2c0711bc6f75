// Any sequence of inode operations on a new disk: the disk does what a small, deterministic model
// does, which knows the files, the list of free numbers, and how many blocks are free.

module Runs {
  import opened Geometry
  import opened Blocks
  import opened Trees
  import opened FreeLists
  import opened IndirectGrow
  import opened IndirectTransfer
  import opened Files
  import opened Resize
  import opened Counting
  import opened SetSize
  import opened FileIO
  import opened Inodes

  // ----- the model -----

  datatype World = World(files: seq<File>, spare: seq<int>, free: nat)

  datatype Op =
    | Allocate
    | Truncate(inumber: nat, size: nat)
    | Write(inumber: nat, pos: int, data: seq<Byte>)
    | Free(inumber: nat)
    | Link(inumber: nat)
    | Unlink(inumber: nat)
    | Chmod(inumber: nat, isDir: bool)

  /** How an operation ends: well; at one of the source's assertions; with a block in use released;
      or with the list of free numbers broken. */
  datatype Ending = Fine | AssertionFailed | BlockReleased | ListBroken

  /** Which of the source's two comparisons are the source's own. */
  datatype Variant = Variant(test: ReleaseTest, clamp: Clamp)

  /** Inode numbers must be in the table. */
  predicate InRange(op: Op, count: nat) {
    match op
    case Allocate => true
    case Write(j, pos, _) => j < count && pos >= -1
    case _ => op.inumber < count
  }

  ghost function EndingOf(outcome: Outcome): Ending {
    match outcome
    case Done(_) => Fine
    case AssertionFails => AssertionFailed
    case LiveBlockReleased => BlockReleased
  }

  /** The blocks left free when a file of `size` bytes comes to have `size'`. */
  ghost function LeftFree(free: nat, size: nat, size': nat): nat {
    Within(free + FileSize(BlocksFor(size)) - FileSize(BlocksFor(size')), free + FileSize(BlocksFor(size)))
  }

  ghost function StepEnds(w: World, op: Op, variant: Variant): Ending
    requires InRange(op, |w.files|)
  {
    match op
    case Truncate(j, size) => EndingOf(TruncateEnds(w.files[j], size, variant.test, w.free))
    case Write(j, pos, bytes) => EndingOf(WriteEnds(w.files[j], pos, |bytes|, variant.test, variant.clamp, w.free))
    case Free(j) => if Freeable(w.files[j]) && ZeroHeads(w.spare) then ListBroken else Fine
    case _ => Fine
  }

  /** The world after an operation that ends well. */
  ghost function Step(w: World, op: Op, variant: Variant): (w': World)
    requires InRange(op, |w.files|)
    ensures |w'.files| == |w.files|
  {
    match op
    case Allocate =>
      var top := |w.spare| - 1;
      if top < 0 || w.free == 0 || !(0 <= w.spare[top] < |w.files|) then w
      else World(w.files[w.spare[top] := EMPTY], w.spare[..top], w.free - 1)
    case Truncate(j, size) =>
      var f := w.files[j];
      if f.Missing? then w
      else
        var newsize := ReachedSize(|f.data|, size, w.free);
        w.(files := w.files[j := f.(data := Padded(f.data, newsize))], free := LeftFree(w.free, |f.data|, newsize))
    case Write(j, pos, bytes) =>
      var f := w.files[j];
      if f.Missing? then w
      else
        var newsize := WriteReach(|f.data|, EndOfWrite(|f.data|, pos, |bytes|), w.free);
        var data := Written(variant.clamp, f.data, EndOfWrite(|f.data|, pos, 0), bytes, newsize);
        w.(files := w.files[j := f.(data := data)],
           free := LeftFree(w.free, |f.data|, newsize))
    case Free(j) =>
      var f := w.files[j];
      if !Freeable(f) then w
      else World(w.files[j := Missing], w.spare + [j], w.free + FileSize(BlocksFor(|f.data|)))
    case Link(j) => w.(files := LinksChanged(w.files, j, 1))
    case Unlink(j) => w.(files := LinksChanged(w.files, j, -1))
    case Chmod(j, isDir) =>
      var f := w.files[j];
      if f.Missing? then w else w.(files := w.files[j := f.(isDir := isDir)])
  }

  ghost function LinksChanged(files: seq<File>, j: nat, step: int): seq<File>
    requires j < |files|
  {
    if files[j].Missing? then files else files[j := files[j].(nlinks := (files[j].nlinks + step) % NLINKS)]
  }

  /** How a sequence ends: like the first operation that does not end well. */
  ghost function RunEnds(w: World, ops: seq<Op>, variant: Variant): Ending
    requires forall i :: 0 <= i < |ops| ==> InRange(ops[i], |w.files|)
    decreases |ops|
  {
    if |ops| == 0 then Fine
    else if StepEnds(w, ops[0], variant) != Fine then StepEnds(w, ops[0], variant)
    else RunEnds(Step(w, ops[0], variant), ops[1..], variant)
  }

  /** The world after a sequence that ends well. */
  ghost function RunWorld(w: World, ops: seq<Op>, variant: Variant): World
    requires forall i :: 0 <= i < |ops| ==> InRange(ops[i], |w.files|)
    decreases |ops|
  {
    if |ops| == 0 then w else RunWorld(Step(w, ops[0], variant), ops[1..], variant)
  }

  /** Writing at position -1 is writing at the end of the file, short writes and failures included. */
  lemma {:induction false} AppendStep(w: World, j: nat, bytes: seq<Byte>, variant: Variant)
    requires j < |w.files| && w.files[j].File?
    ensures var op, op' := Write(j, -1, bytes), Write(j, |w.files[j].data|, bytes);
      StepEnds(w, op, variant) == StepEnds(w, op', variant) && Step(w, op, variant) == Step(w, op', variant)
  {
    var f := w.files[j];
    AppendIsAtEnd(f, f, |bytes|, Zeros, variant.test, variant.clamp, w.free, w.free);
    assert EndOfWrite(|f.data|, -1, |bytes|) == EndOfWrite(|f.data|, |f.data|, |bytes|) == |f.data| + |bytes|;
    assert EndOfWrite(|f.data|, -1, 0) == EndOfWrite(|f.data|, |f.data|, 0) == |f.data|;
  }

  // ----- the disk -----

  ghost function WorldOf(img: Image, v: View): World {
    World(FilesOf(img, v.entries), v.spare, |v.free|)
  }

  /** A new disk: no file, all numbers free beginning with 0, and all blocks of the data area free. */
  ghost function NewWorld(count: nat, blocks: nat): World {
    World(seq(count, _ => Missing), seq(count, k requires 0 <= k < count => count - 1 - k), blocks)
  }

  method NewDisk(d: Disk, ilistSize: nat)
    requires 1 <= ilistSize && ilistSize + 1 < d.data.Length && ilistSize * N < -EOF
    modifies d`view, d.data
    ensures FsOk(d.Image(), d.view) && DataStart(d.Image()) == ilistSize + 1
    ensures WorldOf(d.Image(), d.view) == NewWorld(ilistSize * N, d.data.Length - (ilistSize + 1))
  {
    d.MkfsStorage(ilistSize);
    FreshOk(d.Image(), d.view);
    assert FilesOf(d.Image(), d.view.entries) == NewWorld(ilistSize * N, 0).files;
  }

  lemma {:induction false} LeftIs(free: nat, size: nat, size': nat, free': nat)
    requires free' + FileSize(BlocksFor(size')) == free + FileSize(BlocksFor(size))
    ensures free' == LeftFree(free, size, size')
  {
  }

  method PerformWrite(d: Disk, j: nat, pos: int, bytes: seq<Byte>, variant: Variant) returns (ending: Ending)
    requires FsOk(d.Image(), d.view) && j < |d.view.entries| && pos >= -1
    modifies d`view, d.data
    ensures ending == StepEnds(old(WorldOf(d.Image(), d.view)), Write(j, pos, bytes), variant)
    ensures FsOk(d.Image(), d.view) <==> ending != BlockReleased
    ensures ending == Fine ==>
      WorldOf(d.Image(), d.view) == Step(old(WorldOf(d.Image(), d.view)), Write(j, pos, bytes), variant)
    ensures |d.view.entries| == |old(d.view).entries|
  {
    ghost var f, free, size := FilesOf(d.Image(), d.view.entries)[j], |d.view.free|, |bytes|;
    var data := new Byte[|bytes|](i requires 0 <= i < |bytes| => bytes[i]);
    assert data[..] == bytes;
    assert Payload(From(data[..]), size) == bytes;
    var outcome := InodeWrite(d, j, pos, data, |bytes|, variant.test, variant.clamp);
    ending := match outcome
      case Done(_) => Fine
      case AssertionFails => AssertionFailed
      case LiveBlockReleased => BlockReleased;
    if f.File? && ending == Fine {
      LeftIs(free, |f.data|, WriteReach(|f.data|, EndOfWrite(|f.data|, pos, size), free), |d.view.free|);
    }
  }

  method PerformTruncate(d: Disk, j: nat, size: nat, variant: Variant) returns (ending: Ending)
    requires FsOk(d.Image(), d.view) && j < |d.view.entries|
    modifies d`view, d.data
    ensures ending == StepEnds(old(WorldOf(d.Image(), d.view)), Truncate(j, size), variant)
    ensures FsOk(d.Image(), d.view) <==> ending != BlockReleased
    ensures ending == Fine ==>
      WorldOf(d.Image(), d.view) == Step(old(WorldOf(d.Image(), d.view)), Truncate(j, size), variant)
    ensures |d.view.entries| == |old(d.view).entries|
  {
    ghost var f, free := FilesOf(d.Image(), d.view.entries)[j], |d.view.free|;
    var outcome := InodeTruncate(d, j, size, variant.test, variant.clamp);
    ending := match outcome
      case Done(_) => Fine
      case AssertionFails => AssertionFailed
      case LiveBlockReleased => BlockReleased;
    if f.File? && ending == Fine {
      LeftIs(free, |f.data|, ReachedSize(|f.data|, size, free), |d.view.free|);
    }
  }

  method PerformAllocate(d: Disk)
    requires FsOk(d.Image(), d.view)
    modifies d`view, d.data
    ensures FsOk(d.Image(), d.view) && |d.view.entries| == |old(d.view).entries|
    ensures WorldOf(d.Image(), d.view) == Step(old(WorldOf(d.Image(), d.view)), Allocate,
                                               Variant(BlockIsNew, LowerToSize))
  {
    ghost var fs := FilesOf(d.Image(), d.view.entries);
    var r := InodeAllocate(d);
    assert |FilesOf(d.Image(), d.view.entries)| == |fs|;
    if r >= 0 {
      assert old(d.view).spare[..|old(d.view).spare| - 1] == d.view.spare;
    }
  }

  method PerformFree(d: Disk, j: nat) returns (ending: Ending)
    requires FsOk(d.Image(), d.view) && j < |d.view.entries|
    modifies d`view, d.data
    ensures ending == StepEnds(old(WorldOf(d.Image(), d.view)), Free(j), Variant(BlockIsNew, LowerToSize))
    ensures FsOk(d.Image(), d.view) <==> ending != ListBroken
    ensures ending == ListBroken ==> !d.Valid()
    ensures ending == Fine ==>
      WorldOf(d.Image(), d.view) == Step(old(WorldOf(d.Image(), d.view)), Free(j), Variant(BlockIsNew, LowerToSize))
    ensures ending == Fine ==> |d.view.entries| == |old(d.view).entries|
  {
    ghost var fs := FilesOf(d.Image(), d.view.entries);
    var super := d.Read(0);
    var r := InodeFree(d, j);
    ending := if r == 0 && super.inoFreelistStart == 0 then ListBroken else Fine;
    assert ending == Fine ==> |FilesOf(d.Image(), d.view.entries)| == |fs|;
  }

  method Perform(d: Disk, op: Op, variant: Variant) returns (ending: Ending)
    requires FsOk(d.Image(), d.view) && InRange(op, |d.view.entries|)
    modifies d`view, d.data
    ensures ending == StepEnds(old(WorldOf(d.Image(), d.view)), op, variant)
    ensures FsOk(d.Image(), d.view) <==> ending != BlockReleased && ending != ListBroken
    ensures ending == ListBroken ==> !d.Valid()
    ensures ending == Fine ==> |d.view.entries| == |old(d.view).entries|
    ensures ending == Fine ==> WorldOf(d.Image(), d.view) == Step(old(WorldOf(d.Image(), d.view)), op, variant)
  {
    ending := Fine;
    match op
    case Allocate =>
      PerformAllocate(d);
    case Truncate(j, size) =>
      ending := PerformTruncate(d, j, size, variant);
    case Write(j, pos, bytes) =>
      ending := PerformWrite(d, j, pos, bytes, variant);
    case Free(j) =>
      ending := PerformFree(d, j);
    case Link(j) =>
      var _ := InodeLink(d, j);
    case Unlink(j) =>
      var _ := InodeUnlink(d, j);
    case Chmod(j, isDir) =>
      var _ := InodeChmod(d, j, isDir);
  }

  /** Formats a disk and performs the operations, up to the first that does not end well. What
      happens, and whether the file system is sound at the end, follows from the operations. */
  method Run(d: Disk, ilistSize: nat, ops: seq<Op>, variant: Variant) returns (ending: Ending)
    requires 1 <= ilistSize && ilistSize + 1 < d.data.Length && ilistSize * N < -EOF
    requires forall i :: 0 <= i < |ops| ==> InRange(ops[i], ilistSize * N)
    modifies d`view, d.data
    ensures ending == RunEnds(NewWorld(ilistSize * N, d.data.Length - (ilistSize + 1)), ops, variant)
    ensures FsOk(d.Image(), d.view) <==> ending != BlockReleased && ending != ListBroken
    ensures ending == ListBroken ==> !d.Valid()
    ensures ending == Fine ==>
      WorldOf(d.Image(), d.view) == RunWorld(NewWorld(ilistSize * N, d.data.Length - (ilistSize + 1)), ops, variant)
  {
    ghost var w0 := NewWorld(ilistSize * N, d.data.Length - (ilistSize + 1));
    NewDisk(d, ilistSize);
    ending := Fine;
    var i := 0;
    while i < |ops| && ending == Fine
      invariant i <= |ops| && (ending == Fine ==> |d.view.entries| == ilistSize * N)
      invariant FsOk(d.Image(), d.view) <==> ending != BlockReleased && ending != ListBroken
      invariant ending == ListBroken ==> !d.Valid()
      invariant if ending == Fine
        then RunEnds(w0, ops, variant) == RunEnds(WorldOf(d.Image(), d.view), ops[i..], variant)
             && RunWorld(w0, ops, variant) == RunWorld(WorldOf(d.Image(), d.view), ops[i..], variant)
        else RunEnds(w0, ops, variant) == ending
      decreases |ops| - i
    {
      ghost var w := WorldOf(d.Image(), d.view);
      assert ops[i..][0] == ops[i] && ops[i..][1..] == ops[i + 1..];
      ending := Perform(d, ops[i], variant);
      i := i + 1;
    }
  }

  // ----- sequences that end badly -----

  /** One operation of a sequence that ends well. */
  lemma {:induction false} RunStep(w: World, op: Op, rest: seq<Op>, variant: Variant)
    requires InRange(op, |w.files|) && StepEnds(w, op, variant) == Fine
    requires forall i :: 0 <= i < |rest| ==> InRange(rest[i], |w.files|)
    ensures RunEnds(w, [op] + rest, variant) == RunEnds(Step(w, op, variant), rest, variant)
    ensures RunWorld(w, [op] + rest, variant) == RunWorld(Step(w, op, variant), rest, variant)
  {
    assert ([op] + rest)[0] == op && ([op] + rest)[1..] == rest;
  }

  lemma {:induction false} RunLast(w: World, op: Op, variant: Variant)
    requires InRange(op, |w.files|)
    ensures RunEnds(w, [op], variant) == StepEnds(w, op, variant)
  {
    assert [op][1..] == [];
    assert StepEnds(w, op, variant) == Fine ==> RunEnds(Step(w, op, variant), [op][1..], variant) == Fine;
  }

  /** One of `left` free numbers is taken, with blocks to spare. */
  lemma {:induction false} Taken(w: World, left: nat, variant: Variant)
    requires |w.spare| == left > 0 && w.free > 0 && left <= |w.files|
    requires forall k :: 0 <= k < left ==> w.spare[k] == |w.files| - 1 - k
    ensures Step(w, Allocate, variant) == World(w.files[|w.files| - left := EMPTY], w.spare[..left - 1], w.free - 1)
  {
  }

  /** Two files are made and freed, the one with inode 0 first: the list of free numbers breaks. */
  lemma {:induction false} ListBreaks(count: nat, blocks: nat, variant: Variant)
    requires count >= 2 && blocks >= 2
    ensures RunEnds(NewWorld(count, blocks), [Allocate, Allocate, Free(0), Free(1)], variant) == ListBroken
  {
    var w0 := NewWorld(count, blocks);
    var w1 := Step(w0, Allocate, variant);
    var w2 := Step(w1, Allocate, variant);
    var w3 := Step(w2, Free(0), variant);
    Taken(w0, count, variant);
    Taken(w1, count - 1, variant);
    assert w2.files[0] == EMPTY && w2.files[1] == EMPTY;
    assert !ZeroHeads(w2.spare) && ZeroHeads(w3.spare);
    assert [Allocate, Allocate, Free(0), Free(1)] == [Allocate] + [Allocate, Free(0), Free(1)];
    assert [Allocate, Free(0), Free(1)] == [Allocate] + [Free(0), Free(1)];
    assert [Free(0), Free(1)] == [Free(0)] + [Free(1)];
    RunStep(w0, Allocate, [Allocate, Free(0), Free(1)], variant);
    RunStep(w1, Allocate, [Free(0), Free(1)], variant);
    RunStep(w2, Free(0), [Free(1)], variant);
    RunLast(w3, Free(1), variant);
  }

  /** A disk on which it does. */
  method ListBreaksOnDisk(d: Disk, ilistSize: nat, variant: Variant)
    requires 1 <= ilistSize && ilistSize + 2 < d.data.Length && 2 <= ilistSize * N < -EOF
    modifies d`view, d.data
    ensures !d.Valid()
  {
    var ops := [Allocate, Allocate, Free(0), Free(1)];
    var ending := Run(d, ilistSize, ops, variant);
    ListBreaks(ilistSize * N, d.data.Length - (ilistSize + 1), variant);
  }

  /** A new file is given `n` data blocks, and the disk is full. */
  lemma {:induction false} FillsDisk(count: nat, n: nat, variant: Variant, w: World)
    requires count >= 1 && n <= UNREACHABLE && w == NewWorld(count, FileSize(n))
    ensures var ops := [Allocate, Truncate(0, Offset(n))];
      && RunEnds(w, ops, variant) == Fine
      && RunWorld(w, ops, variant).free == 0
      && RunWorld(w, ops, variant).files == w.files[0 := EMPTY.(data := Padded([], Offset(n)))]
  {
    var w1, op := Step(w, Allocate, variant), Truncate(0, Offset(n));
    FileSizeStepsUp(n);
    assert w1.files == w.files[0 := EMPTY] && w1.free == FileSize(n) - 1;
    FillStep(w1, n, variant);
    assert [Allocate, op] == [Allocate] + [op] && [op] == [op] + [];
    RunStep(w, Allocate, [op], variant);
    RunStep(w1, op, [], variant);
    assert w1.files[0 := EMPTY.(data := Padded([], Offset(n)))] == w.files[0 := EMPTY.(data := Padded([], Offset(n)))];
  }

  lemma {:induction false} FileSizeStepsUp(n: nat)
    ensures FileSize(n) >= 1
  {
    FileSizeIs(n);
  }

  lemma {:induction false} FillStep(w: World, n: nat, variant: Variant)
    requires |w.files| > 0 && w.files[0] == EMPTY && n <= UNREACHABLE && w.free == FileSize(n) - 1
    ensures StepEnds(w, Truncate(0, Offset(n)), variant) == Fine
    ensures Step(w, Truncate(0, Offset(n)), variant).free == 0
    ensures Step(w, Truncate(0, Offset(n)), variant).files == w.files[0 := EMPTY.(data := Padded([], Offset(n)))]
  {
    NoHazardAtNone(variant.test, Offset(n), w.free);
    BlocksForWhole(n);
    OffsetMono(n, UNREACHABLE);
    FileSizeNone();
    SpendIs(0, n);
    ReachedSizeExactCondition(0, Offset(n), w.free);
    assert ReachedSize(0, Offset(n), w.free) == Offset(n);
    assert LeftFree(w.free, 0, Offset(n)) == 0;
  }

  /** The next block of that file, if it is one with one data block under its double indirect block. */
  lemma {:induction false} GrowthBreaks(w: World, n: nat, m: nat, variant: Variant)
    requires N >= 2 && n == FirstBlock(2) + 1 && m == n + 1 && variant.test.StartIdxIsZero?
    requires |w.files| > 0 && w.files[0].File? && |w.files[0].data| == Offset(n) && w.free == 0
    ensures StepEnds(w, Truncate(0, Offset(m)), variant) == BlockReleased
  {
    HazardExample(n, m);
  }

  /** On a disk that a file with one data block under its double indirect block fills, extending the
      file by one block releases a block in use. Up to there the file system is sound. */
  method GrowthBreaksOnDisk(d: Disk, ilistSize: nat, n: nat, clamp: Clamp)
    requires 1 <= ilistSize && ilistSize + 1 < d.data.Length && 1 <= ilistSize * N < -EOF
    requires N >= 2 && n == FirstBlock(2) + 1 && d.data.Length - (ilistSize + 1) == FileSize(n)
    modifies d`view, d.data
    ensures !FsOk(d.Image(), d.view)
  {
    FillDisk(d, ilistSize, n, Variant(StartIdxIsZero, clamp));
    var m := n + 1;
    GrowthBreaks(WorldOf(d.Image(), d.view), n, m, Variant(StartIdxIsZero, clamp));
    var ending := PerformTruncate(d, 0, Offset(m), Variant(StartIdxIsZero, clamp));
  }

  /** A new disk with one file on it, and no block free. */
  method FillDisk(d: Disk, ilistSize: nat, n: nat, variant: Variant)
    requires 1 <= ilistSize && ilistSize + 1 < d.data.Length && 1 <= ilistSize * N < -EOF
    requires N >= 2 && n == FirstBlock(2) + 1 && d.data.Length - (ilistSize + 1) == FileSize(n)
    modifies d`view, d.data
    ensures FsOk(d.Image(), d.view) && WorldOf(d.Image(), d.view).free == 0 && |d.view.entries| > 0
    ensures var f := FilesOf(d.Image(), d.view.entries)[0]; f.File? && |f.data| == Offset(n)
  {
    InDouble(n, n + 1);
    var ops := [Allocate, Truncate(0, Offset(n))];
    ghost var w := NewWorld(ilistSize * N, d.data.Length - (ilistSize + 1));
    FillsDisk(ilistSize * N, n, variant, w);
    var ending := Run(d, ilistSize, ops, variant);
    assert |WorldOf(d.Image(), d.view).files| == |w.files|;
  }

  /** A data block under a direct slot costs itself. */
  lemma {:induction false} DirectCost(k: nat)
    requires k < DIRECT
    ensures FileCost(k) == 1 && k < UNREACHABLE
  {
    BaseOfDirect(k);
    BaseOfDirect(k + 1);
    SlotUnique(k, k);
    FileCostIs(k, k, InSlot(k, k), BlockIsNew, 0);
  }

  /** With one free block, an empty file reaches one block of the two asked for. */
  lemma {:induction false} OneOfTwo(request: nat)
    requires DIRECT >= 2 && Offset(1) < request <= Offset(2)
    ensures WriteReach(0, request, 1) == Offset(1)
  {
    DirectCost(0);
    DirectCost(1);
    OffsetMono(2, UNREACHABLE);
    BlocksForWhole(0);
    BlocksForUnique(request, 2);
    assert Reach(0, 2, 1) == Reach(1, 2, 0) == 1;
  }

  /** Two blocks are written to an empty file, with room for one: the source's comparison reports no byte
      written, and leaves zeros; the opposite one reports a block, and leaves it. */
  lemma {:induction false} ShortWrite(bytes: seq<Byte>, test: ReleaseTest)
    requires DIRECT >= 2 && |bytes| == Offset(2)
    ensures WriteEnds(EMPTY, 0, |bytes|, test, RaiseToSize, 1) == Done(0)
    ensures WriteEnds(EMPTY, 0, |bytes|, test, LowerToSize, 1) == Done(BLOCKSIZE)
    ensures WriteReach(0, |bytes|, 1) == BLOCKSIZE
    ensures Written(RaiseToSize, [], 0, bytes, BLOCKSIZE) == seq(BLOCKSIZE, _ => 0)
    ensures Written(LowerToSize, [], 0, bytes, BLOCKSIZE) == bytes[..BLOCKSIZE]
  {
    assert Offset(1) == BLOCKSIZE && Offset(2) == BLOCKSIZE + BLOCKSIZE;
    OneOfTwo(|bytes|);
    NoHazardAtNone(test, |bytes|, 1);
    assert EndOfWrite(0, 0, |bytes|) == |bytes| && EndOfWrite(0, 0, 0) == 0;
  }

  /** A write from past the end of the first block of an empty file, with room for that block only, stops at an
      assertion. */
  lemma {:induction false} StoppedWrite(size: nat, test: ReleaseTest)
    requires DIRECT >= 2 && size > 0 && BLOCKSIZE + 1 + size <= Offset(2)
    ensures WriteEnds(EMPTY, BLOCKSIZE + 1, size, test, RaiseToSize, 1) == AssertionFails
  {
    var request := BLOCKSIZE + 1 + size;
    assert Offset(1) == BLOCKSIZE;
    OneOfTwo(request);
    NoHazardAtNone(test, request, 1);
    assert EndOfWrite(0, BLOCKSIZE + 1, size) == request && EndOfWrite(0, BLOCKSIZE + 1, 0) == BLOCKSIZE + 1;
  }

  /** A new disk with an empty file on it, and one block free. */
  method OneBlockLeft(d: Disk, ilistSize: nat)
    requires 1 <= ilistSize && ilistSize + 3 == d.data.Length && 1 <= ilistSize * N < -EOF
    modifies d`view, d.data
    ensures FsOk(d.Image(), d.view) && |d.view.entries| == ilistSize * N && |d.view.free| == 1
    ensures FilesOf(d.Image(), d.view.entries)[0] == EMPTY
  {
    NewDisk(d, ilistSize);
    PerformAllocate(d);
  }

  /** The short write on that disk. */
  method ShortWriteOnDisk(d: Disk, ilistSize: nat, bytes: seq<Byte>, variant: Variant)
    requires 1 <= ilistSize && ilistSize + 3 == d.data.Length && 1 <= ilistSize * N < -EOF
    requires DIRECT >= 2 && |bytes| == Offset(2)
    modifies d`view, d.data
    ensures FsOk(d.Image(), d.view) && |d.view.entries| > 0
    ensures var data := if variant.clamp.RaiseToSize? then seq(BLOCKSIZE, _ => 0) else bytes[..BLOCKSIZE];
      FilesOf(d.Image(), d.view.entries)[0] == EMPTY.(data := data)
  {
    OneBlockLeft(d, ilistSize);
    ShortWrite(bytes, variant.test);
    var ending := PerformWrite(d, 0, 0, bytes, variant);
    assert ending == Fine;
  }

  /** The write that stops. */
  method StoppedWriteOnDisk(d: Disk, ilistSize: nat, bytes: seq<Byte>, test: ReleaseTest) returns (ending: Ending)
    requires 1 <= ilistSize && ilistSize + 3 == d.data.Length && 1 <= ilistSize * N < -EOF
    requires DIRECT >= 2 && |bytes| > 0 && BLOCKSIZE + 1 + |bytes| <= Offset(2)
    modifies d`view, d.data
    ensures FsOk(d.Image(), d.view) && ending == AssertionFailed
  {
    OneBlockLeft(d, ilistSize);
    var pos, variant := BLOCKSIZE + 1, Variant(test, RaiseToSize);
    StoppedStep(WorldOf(d.Image(), d.view), pos, bytes, variant);
    ending := PerformWrite(d, 0, pos, bytes, variant);
  }

  lemma {:induction false} StoppedStep(w: World, pos: int, bytes: seq<Byte>, variant: Variant)
    requires |w.files| > 0 && w.files[0] == EMPTY && w.free == 1 && pos == BLOCKSIZE + 1
    requires DIRECT >= 2 && |bytes| > 0 && pos + |bytes| <= Offset(2) && variant.clamp.RaiseToSize?
    ensures StepEnds(w, Write(0, pos, bytes), variant) == AssertionFailed
  {
    StoppedWrite(|bytes|, variant.test);
  }

}
