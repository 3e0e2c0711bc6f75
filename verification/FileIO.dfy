// inode_write, inode_read and inode_truncate.

module FileIO {
  import opened Geometry
  import opened Blocks
  import opened Trees
  import opened FreeLists
  import opened IndirectGrow
  import opened IndirectTransfer
  import opened Files
  import opened Resize
  import opened Counting
  import opened SetSize
  import opened SlotTransfer

  /** How a write that ran out of room bounds the part to be zeroed: as the source's comparison
      does, or the other way round. */
  datatype Clamp = RaiseToSize | LowerToSize

  /** How a call ends: it returns a result; or the source stops at one of its assertions; or the
      source's release test has released a block in use, after which the file is not sound. */
  datatype Outcome = Done(result: int) | AssertionFails | LiveBlockReleased

  // ----- what a write means -----

  /** The bytes handed to a write of `size` bytes. */
  ghost function Payload(src: Source, size: nat): (bytes: seq<Byte>)
    ensures |bytes| == size
  {
    seq(size, i => ByteAt(src, i))
  }

  /** The file with `bytes` at `pos`, and zeros in the gap if it ended before. */
  ghost function Overlaid(was: seq<Byte>, pos: nat, bytes: seq<Byte>): seq<Byte> {
    seq(if pos + |bytes| > |was| then pos + |bytes| else |was|, o requires 0 <= o =>
      if pos <= o < pos + |bytes| then bytes[o - pos] else if o < |was| then was[o] else 0)
  }

  /** The file up to `from`, and zeros up to `size`. */
  ghost function Zeroed(was: seq<Byte>, from: nat, size: nat): seq<Byte> {
    seq(size, o requires 0 <= o < size => if o < from && o < |was| then was[o] else 0)
  }

  /** The contents after a write at `pos`, when the file could be given `newsize` bytes. */
  ghost function Written(clamp: Clamp, was: seq<Byte>, pos: nat, bytes: seq<Byte>, newsize: nat): seq<Byte> {
    if pos + |bytes| <= newsize then Overlaid(was, pos, bytes)
    else if clamp.LowerToSize? then Overlaid(was, pos, bytes)[..newsize]
    else Zeroed(was, if pos < |was| then pos else |was|, newsize)
  }

  /** The number of bytes reported as written. */
  ghost function Reported(clamp: Clamp, pos: nat, size: nat, newsize: nat): int {
    if pos + size <= newsize then size
    else if clamp.LowerToSize? && pos < newsize then newsize - pos
    else 0
  }

  /** Bytes `pos` to `z` of a file become zeros, and then the source as far as `endpos`. */
  ghost function Filled(content: seq<Byte>, pos: int, z: int, endpos: int, src: Source): seq<Byte> {
    seq(|content|, o requires 0 <= o < |content| =>
      if pos <= o < endpos then (if o < z then 0 else ByteAt(src, o - z)) else content[o])
  }

  /** Only the blocks of file `j` have been moved. */
  ghost predicate OthersKept(ts: seq<Tree>, ts': seq<Tree>, j: nat) {
    |ts'| == |ts| && forall i :: 0 <= i < |ts| && i != j ==> ts'[i] == ts[i]
  }

  /** File `j` has become `f`. No other file has changed, nor have the free numbers. */
  ghost predicate OneFile(before: Image, v: View, after: Image, v': View, j: nat, f: File) {
    && |after| == |before| && DataStart(after) == DataStart(before) && v' == v.(chain := v'.chain, free := v'.free)
    && forall u :: Look(u) ==>
         && j < |v.entries| && FilesOf(after, v.entries) == FilesOf(before, v.entries)[j := f]
         && OthersKept(TreesOf(before, v.entries), TreesOf(after, v.entries), j)
  }

  lemma {:induction false} OneFileMeans(before: Image, v: View, after: Image, v': View, j: nat, f: File)
    requires OneFile(before, v, after, v', j, f)
    ensures j < |v.entries| && FilesOf(after, v'.entries) == FilesOf(before, v.entries)[j := f]
    ensures OthersKept(TreesOf(before, v.entries), TreesOf(after, v'.entries), j)
  {
    assert Look(0);
  }

  lemma {:induction false} OneFileBoth(img0: Image, v0: View, img1: Image, v1: View, img2: Image, v2: View, j: nat,
                                       f: File, g: File)
    requires OneFile(img0, v0, img1, v1, j, f) && OneFile(img1, v1, img2, v2, j, g)
    ensures OneFile(img0, v0, img2, v2, j, g)
  {
    assert Look(0);
  }

  lemma {:induction false} OneFileSame(img: Image, v: View, j: nat, b: int)
    requires j < |v.entries| && b == v.entries[j] >= 0
    ensures OneFile(img, v, img, v, j, FileOf(img, b))
  {
    var fs := FilesOf(img, v.entries);
    assert fs == fs[j := FileOf(img, b)];
  }

  lemma {:induction false} OneFileResized(before: Image, v: View, after: Image, v': View, j: nat, b: int, request: nat,
                                          test: ReleaseTest, r: int)
    requires SizeSet(before, v, after, v', j, b, request, test, r) && |after| == |before|
    requires DataStart(after) == DataStart(before) && v' == v.(chain := v'.chain, free := v'.free)
    ensures OneFile(before, v, after, v', j, FileOf(after, b))
  {
  }

  // ----- what the contents satisfy -----

  /** What was written is read back... */
  lemma {:induction false} ReadBack(was: seq<Byte>, pos: nat, bytes: seq<Byte>)
    ensures Clipped(Overlaid(was, pos, bytes), pos, |bytes|) == bytes
  {
    var w := Overlaid(was, pos, bytes);
    assert pos + |bytes| <= |w|;
    assert w[pos..pos + |bytes|] == bytes;
  }

  /** ... and everything else is as it was. */
  lemma {:induction false} ReadElsewhere(was: seq<Byte>, pos: nat, bytes: seq<Byte>, from: nat, size: nat)
    requires from + size <= pos || pos + |bytes| <= from
    requires from + size <= |was|
    ensures Clipped(Overlaid(was, pos, bytes), from, size) == Clipped(was, from, size)
  {
    var r, r' := Clipped(was, from, size), Clipped(Overlaid(was, pos, bytes), from, size);
    assert |r| == |r'| == size;
    forall i | 0 <= i < size ensures r'[i] == r[i] {
      assert r[i] == was[from + i];
    }
  }

  /** Cutting a file and extending it again exposes none of the bytes that were cut. */
  lemma {:induction false} CutAndExtended(data: seq<Byte>, small: nat, large: nat)
    requires small <= |data| && small <= large
    ensures Padded(Padded(data, small), large) == data[..small] + seq(large - small, _ => 0)
  {
    assert Padded(data, small) == data[..small];
  }

  /** The size that a write up to `endpos` gives a file. */
  ghost function WriteReach(size0: nat, endpos: nat, free: nat): nat {
    if endpos <= size0 then size0 else ReachedSize(size0, endpos, free)
  }

  /** A write is complete if and only if it ends within the file, or the file may become so large
      and there are free blocks enough. */
  lemma {:induction false} FullWriteExactCondition(size0: nat, endpos: nat, free: nat)
    ensures endpos <= WriteReach(size0, endpos, free) <==>
      endpos <= size0 || (endpos <= MAX_FILESIZE && Spend(BlocksFor(size0), BlocksFor(endpos)) <= free)
    ensures size0 <= MAX_FILESIZE ==> size0 <= WriteReach(size0, endpos, free)
  {
    if endpos > size0 {
      ReachedSizeExactCondition(size0, endpos, free);
    }
  }

  /** The source's comparison does what the opposite one would, and returns, exactly if the write is
      complete or there is nothing to write within the size that can be reached. In all other
      cases it reports no byte written, and fills the range with zeros or stops at an assertion. */
  lemma {:induction false} ClampExactCondition(was: seq<Byte>, pos: nat, bytes: seq<Byte>, free: nat)
    requires |was| <= MAX_FILESIZE
    ensures var newsize := WriteReach(|was|, pos + |bytes|, free);
      && ((!Overshoots(RaiseToSize, |was|, pos, newsize)
           && Reported(RaiseToSize, pos, |bytes|, newsize) == Reported(LowerToSize, pos, |bytes|, newsize)
           && Written(RaiseToSize, was, pos, bytes, newsize) == Written(LowerToSize, was, pos, bytes, newsize))
          <==> pos + |bytes| <= newsize || newsize == pos || (newsize == |was| && newsize <= pos))
      && (pos < newsize < pos + |bytes| ==>
            && Reported(RaiseToSize, pos, |bytes|, newsize) == 0
            && forall o :: pos <= o < newsize ==> Written(RaiseToSize, was, pos, bytes, newsize)[o] == 0)
  {
    var newsize := WriteReach(|was|, pos + |bytes|, free);
    FullWriteExactCondition(|was|, pos + |bytes|, free);
    if newsize <= pos && newsize < pos + |bytes| {
      assert Written(RaiseToSize, was, pos, bytes, newsize) == Written(LowerToSize, was, pos, bytes, newsize);
    }
  }

  // ----- writing within the file -----

  lemma {:induction false} ContentFilled(before: Image, after: Image, blocks: seq<int>, ts: seq<Tree>, size: nat,
                                         pos: int, z: int, endpos: int, src: Source)
    requires WritingFile(before, after, blocks, ts, BlocksFor(size), pos, z, src, endpos)
    ensures Content(after, ts, size) == Filled(Content(before, ts, size), pos, z, endpos, src)
  {
    WritingMeans(before, after, blocks, ts, BlocksFor(size), pos, z, src, endpos);
    BlocksForIs(size);
    forall o: nat | o < size
      ensures Content(after, ts, size)[o] == Filled(Content(before, ts, size), pos, z, endpos, src)[o]
    {
      assert ByteDone(before, after, ts, pos, z, src, endpos, o);
    }
  }

  lemma {:induction false} FillStep(before: Image, v: View, j: nat, b: int, inode: Inode, ts: seq<Tree>, after: Image,
                                    pos: int, z: int, endpos: int, src: Source)
    requires FsOk(before, v) && j < |v.entries| && b == v.entries[j] >= 0 && Mounted(after, v)
    requires InodeOk(before, b) && inode == before[b].inode && ts == Slots(before, inode.blocks)
    requires CountAll(ts, b) == 0
    requires WritingFile(before, after, inode.blocks, ts, BlocksFor(inode.size), pos, z, src, endpos)
    ensures FsOk(after, v)
    ensures FilesOf(after, v.entries) == FilesOf(before, v.entries)[j :=
              FileOf(before, b).(data := Filled(FileOf(before, b).data, pos, z, endpos, src))]
    ensures TreesOf(after, v.entries) == TreesOf(before, v.entries)
    ensures after[b] == before[b]
  {
    ContentFilled(before, after, inode.blocks, ts, inode.size, pos, z, endpos, src);
    Unfolded(before, b);
    assert FileTree(after, b) == Node(b, ts);
    assert InodeOk(after, b);
    forall x ensures Conserved(v.free, FileTree(before, b), v.free, FileTree(after, b), x) {
    }
    FsStep(before, v, after, v, j, b);
  }

  /** The second half of a write: the file is long enough. */
  method Fill(d: Disk, ghost inumber: nat, block: int, inode: Inode, pos: int, z: int, endpos: int, data: array?<Byte>)
    requires FsOk(d.Image(), d.view) && inumber < |d.view.entries| && block == d.view.entries[inumber]
    requires 0 <= block < |d.Image()|
    requires d.Image()[block] == InodeBlock(inode)
    requires 0 <= pos <= z <= endpos <= inode.size
    requires data != null ==> data.Length >= endpos - z
    modifies d.data, data
    ensures FsOk(d.Image(), d.view) && BytesIn(data) == old(BytesIn(data))
    ensures var f := FileOf(old(d.Image()), block);
      && f.File?
      && OneFile(old(d.Image()), d.view, d.Image(), d.view, inumber,
                 f.(data := Filled(f.data, pos, z, endpos, old(SourceOf(data)))))
  {
    ghost var img0, v, src := d.Image(), d.view, SourceOf(data);
    ghost var ts, n := Slots(img0, inode.blocks), BlocksFor(inode.size);
    FileClean(img0, v, inumber, block);
    Unfolded(img0, block);
    OwnBlocksOf(v.free, block, ts, DataStart(img0), |img0|);
    BlocksForReachable(inode.size);
    BlocksForIs(inode.size);
    var curpos := WriteSlots(d, inode.blocks, pos, z, endpos, data, n, ts);
    ghost var img := d.Image();
    FillStep(img0, v, inumber, block, inode, ts, img, pos, z, endpos, src);
    assert img[block := InodeBlock(inode)] == img;
    d.WriteOwned(block, InodeBlock(inode));
    assert d.Image() == img;
    assert curpos == endpos;
  }

  // ----- the bounds of a write -----

  /** A file of `size0` bytes, to be written at `pos0`, has been given `newsize`: the range to
      fill runs from `pos` to `endpos`, with zeros as far as `z`. */
  ghost predicate Bounds(clamp: Clamp, size0: nat, pos0: nat, size: nat, newsize: nat, pos: int, z: int, endpos: int) {
    && size0 <= newsize && newsize <= (if pos0 + size > size0 then pos0 + size else size0)
    && pos == (if pos0 + size > size0 && pos0 > size0 then size0 else pos0)
    && endpos == (if pos0 + size > newsize then newsize else pos0 + size)
    && z == (if pos0 + size <= newsize then pos0
             else if clamp.RaiseToSize? == (pos0 < newsize) then newsize else pos0)
  }

  /** The source's last assertion fails, or an earlier one does: zeros would be written past the
      end of the file. */
  ghost predicate Overshoots(clamp: Clamp, size0: nat, pos0: nat, newsize: nat) {
    clamp.RaiseToSize? && size0 < newsize < pos0
  }

  lemma {:induction false} WrittenIs(clamp: Clamp, was: seq<Byte>, pos0: nat, size: nat, src: Source, mid: seq<Byte>,
                                     newsize: nat, pos: int, z: int, endpos: int)
    requires Bounds(clamp, |was|, pos0, size, newsize, pos, z, endpos)
    requires |mid| == newsize && forall o :: 0 <= o < |was| ==> mid[o] == was[o]
    ensures endpos <= pos ==>
      mid == Written(clamp, was, pos0, Payload(src, size), newsize) && Reported(clamp, pos0, size, newsize) == 0
    ensures pos < endpos ==> (endpos < z <==> Overshoots(clamp, |was|, pos0, newsize))
    ensures endpos <= pos ==> !Overshoots(clamp, |was|, pos0, newsize)
    ensures pos < endpos && z <= endpos ==>
      && Filled(mid, pos, z, endpos, src) == Written(clamp, was, pos0, Payload(src, size), newsize)
      && Reported(clamp, pos0, size, newsize) == endpos - z <= size && 0 <= pos <= z
  {
    var w := Written(clamp, was, pos0, Payload(src, size), newsize);
    if endpos <= pos {
      assert mid == w;
    } else if z <= endpos {
      assert |w| == newsize;
      assert Filled(mid, pos, z, endpos, src) == w;
    }
  }

  /** Where a write ends in a file of `size0` bytes. */
  ghost function EndOfWrite(size0: nat, pos: int, size: nat): nat
    requires pos >= -1
  {
    (if pos == -1 then size0 else pos) + size
  }

  /** Growing to hold the write would release a live indirect block. */
  ghost predicate WriteHazard(f: File, pos: int, size: nat, test: ReleaseTest, free: nat)
    requires pos >= -1
  {
    && f.File? && |f.data| < EndOfWrite(|f.data|, pos, size)
    && GrowthHazard(test, |f.data|, EndOfWrite(|f.data|, pos, size), free)
  }

  /** How a write ends, in terms of what there is before the call. */
  ghost function WriteEnds(f: File, pos: int, size: nat, test: ReleaseTest, clamp: Clamp, free: nat): Outcome
    requires pos >= -1
  {
    if f.Missing? then Done(-1)
    else if WriteHazard(f, pos, size, test, free) then LiveBlockReleased
    else
      var newsize := WriteReach(|f.data|, EndOfWrite(|f.data|, pos, size), free);
      var start := EndOfWrite(|f.data|, pos, 0);
      if Overshoots(clamp, |f.data|, start, newsize) then AssertionFails
      else Done(Reported(clamp, start, size, newsize))
  }

  /** What a write does to a file that exists, if no live block is released. */
  ghost predicate WriteDone(f: File, f': File, pos: int, size: nat, src: Source, test: ReleaseTest, clamp: Clamp,
                            free: nat, free': nat)
    requires pos >= -1 && f.File?
  {
    var newsize := WriteReach(|f.data|, EndOfWrite(|f.data|, pos, size), free);
    && f'.File? && f' == f.(data := f'.data) && |f'.data| == newsize
    && free' + FileSize(BlocksFor(newsize)) == free + FileSize(BlocksFor(|f.data|))
    && (WriteEnds(f, pos, size, test, clamp, free).Done? ==>
          f'.data == Written(clamp, f.data, EndOfWrite(|f.data|, pos, 0), Payload(src, size), newsize))
    && (WriteEnds(f, pos, size, test, clamp, free).AssertionFails? ==> SameStart(f, f') && |f.data| < newsize)
  }

  /** Where a write begins: at its position, or at the end of the file if that is -1. */
  ghost predicate StartsAt(f: File, pos: int, start: int)
    requires f.File?
  {
    if pos == -1 then start == |f.data| else start == pos
  }

  /** What a write means when there is room for it: it is complete; every byte of the range is the one written, every
      other is as it was, and a gap before the range is filled with zeros. */
  lemma {:induction false} FullWriteMeans(f: File, f': File, pos: int, start: nat, size: nat, src: Source,
                                          test: ReleaseTest, clamp: Clamp, free: nat, free': nat)
    requires f.File? && |f.data| <= MAX_FILESIZE && pos >= -1 && StartsAt(f, pos, start)
    requires start + size <= |f.data| || !GrowthHazard(test, |f.data|, start + size, free)
    requires start + size <= |f.data|
      || (start + size <= MAX_FILESIZE && Spend(BlocksFor(|f.data|), BlocksFor(start + size)) <= free)
    requires WriteDone(f, f', pos, size, src, test, clamp, free, free')
    ensures WriteEnds(f, pos, size, test, clamp, free) == Done(size)
    ensures f'.File? && f'.isDir == f.isDir && f'.nlinks == f.nlinks
    ensures |f'.data| == if start + size <= |f.data| then |f.data| else start + size
    ensures forall o :: 0 <= o < |f'.data| ==>
      f'.data[o] == if start <= o < start + size then ByteAt(src, o - start) else if o < |f.data| then f.data[o] else 0
  {
    var endpos := start + size;
    EndIs(f, pos, start, size, endpos);
    ReachIsFull(|f.data|, endpos, free);
    FullWritten(clamp, f.data, start, size, src, |f'.data|);
  }

  lemma {:induction false} FullWritten(clamp: Clamp, was: seq<Byte>, start: nat, size: nat, src: Source, newsize: nat)
    requires newsize == if start + size <= |was| then |was| else start + size
    ensures |Written(clamp, was, start, Payload(src, size), newsize)| == newsize
    ensures forall o :: 0 <= o < newsize ==>
      Written(clamp, was, start, Payload(src, size), newsize)[o]
      == if start <= o < start + size then ByteAt(src, o - start) else if o < |was| then was[o] else 0
  {
  }

  /** A write at position -1 appends. */
  lemma {:induction false} AppendMeans(f: File, f': File, size: nat, src: Source, test: ReleaseTest, clamp: Clamp,
                                       free: nat, free': nat)
    requires f.File? && |f.data| + size <= MAX_FILESIZE
    requires size == 0 || !GrowthHazard(test, |f.data|, |f.data| + size, free)
    requires Spend(BlocksFor(|f.data|), BlocksFor(|f.data| + size)) <= free
    requires WriteDone(f, f', -1, size, src, test, clamp, free, free')
    ensures WriteEnds(f, -1, size, test, clamp, free) == Done(size) && f' == f.(data := f.data + Payload(src, size))
  {
    FullWriteMeans(f, f', -1, |f.data|, size, src, test, clamp, free, free');
    assert f'.data == f.data + Payload(src, size);
  }

  /** Position -1 means the end of the file, whatever room there is. */
  lemma {:induction false} AppendIsAtEnd(f: File, f': File, size: nat, src: Source, test: ReleaseTest, clamp: Clamp,
                                         free: nat, free': nat)
    requires f.File?
    ensures WriteEnds(f, -1, size, test, clamp, free) == WriteEnds(f, |f.data|, size, test, clamp, free)
    ensures WriteDone(f, f', -1, size, src, test, clamp, free, free')
        <==> WriteDone(f, f', |f.data|, size, src, test, clamp, free, free')
  {
    AppendEnds(f, |f.data|, size, test, clamp, free);
  }

  lemma {:induction false} AppendEnds(f: File, end: nat, size: nat, test: ReleaseTest, clamp: Clamp, free: nat)
    requires f.File? && end == |f.data|
    ensures EndOfWrite(end, -1, size) == EndOfWrite(end, end, size) && EndOfWrite(end, -1, 0) == EndOfWrite(end, end, 0)
    ensures WriteEnds(f, -1, size, test, clamp, free) == WriteEnds(f, end, size, test, clamp, free)
  {
    assert WriteHazard(f, -1, size, test, free) <==> WriteHazard(f, end, size, test, free);
  }

  /** The bytes after a short write. */
  lemma {:induction false} ShortWritten(clamp: Clamp, was: seq<Byte>, start: nat, size: nat, src: Source, newsize: nat)
    requires |was| <= newsize < start + size
    ensures |Written(clamp, was, start, Payload(src, size), newsize)| == newsize
    ensures clamp.LowerToSize? ==>
      forall o :: 0 <= o < newsize ==>
        Written(clamp, was, start, Payload(src, size), newsize)[o]
        == if start <= o then ByteAt(src, o - start) else if o < |was| then was[o] else 0
    ensures clamp.RaiseToSize? ==>
      forall o :: 0 <= o < newsize ==>
        Written(clamp, was, start, Payload(src, size), newsize)[o]
        == if o < start && o < |was| then was[o] else 0
  {
  }

  /** Where a write begins and ends, in the terms of `EndOfWrite`. */
  lemma {:induction false} EndIs(f: File, pos: int, start: nat, size: nat, endpos: nat)
    requires f.File? && pos >= -1 && StartsAt(f, pos, start) && endpos == start + size
    ensures EndOfWrite(|f.data|, pos, size) == endpos && EndOfWrite(|f.data|, pos, 0) == start
  {
  }

  lemma {:induction false} ReachIsShort(size0: nat, endpos: nat, free: nat)
    requires size0 <= MAX_FILESIZE && endpos > size0
    requires endpos > MAX_FILESIZE || Spend(BlocksFor(size0), BlocksFor(endpos)) > free
    ensures size0 <= WriteReach(size0, endpos, free) < endpos
    ensures WriteReach(size0, endpos, free) == ReachedSize(size0, endpos, free)
  {
    FullWriteExactCondition(size0, endpos, free);
  }

  lemma {:induction false} ReachIsFull(size0: nat, endpos: nat, free: nat)
    requires size0 <= MAX_FILESIZE
    requires endpos <= size0 || (endpos <= MAX_FILESIZE && Spend(BlocksFor(size0), BlocksFor(endpos)) <= free)
    ensures WriteReach(size0, endpos, free) == if endpos <= size0 then size0 else endpos
  {
    FullWriteExactCondition(size0, endpos, free);
    if endpos > size0 {
      ReachedSizeExactCondition(size0, endpos, free);
    }
  }

  lemma {:induction false} ShortWriteEnds(f: File, pos: int, start: nat, size: nat, endpos: nat, test: ReleaseTest,
                                          clamp: Clamp, free: nat, newsize: nat)
    requires f.File? && |f.data| <= MAX_FILESIZE && pos >= -1 && StartsAt(f, pos, start) && endpos == start + size
    requires endpos > |f.data| && !GrowthHazard(test, |f.data|, endpos, free)
    requires newsize == WriteReach(|f.data|, endpos, free) && |f.data| <= newsize < endpos
    ensures clamp.LowerToSize? ==>
      WriteEnds(f, pos, size, test, clamp, free) == Done(if start < newsize then newsize - start else 0)
    ensures clamp.RaiseToSize? ==>
      WriteEnds(f, pos, size, test, clamp, free) == if |f.data| < newsize < start then AssertionFails else Done(0)
  {
    EndIs(f, pos, start, size, endpos);
  }

  /** What a write means when there is not: the file ends with as many whole blocks as there is room for. The
      opposite comparison writes the part of the range that lies in it; the source's reports 0 and leaves zeros from
      the beginning of the range on, or stops at an assertion if the range begins past the new end. */
  lemma {:induction false} ShortWriteMeans(f: File, f': File, pos: int, start: nat, size: nat, src: Source,
                                           test: ReleaseTest, clamp: Clamp, free: nat, free': nat, newsize: nat)
    requires f.File? && |f.data| <= MAX_FILESIZE && pos >= -1 && StartsAt(f, pos, start)
    requires start + size > |f.data| && !GrowthHazard(test, |f.data|, start + size, free)
    requires start + size > MAX_FILESIZE || Spend(BlocksFor(|f.data|), BlocksFor(start + size)) > free
    requires newsize == ReachedSize(|f.data|, start + size, free)
    requires WriteDone(f, f', pos, size, src, test, clamp, free, free')
    ensures |f.data| <= newsize < start + size && f'.File? && |f'.data| == newsize
    ensures clamp.LowerToSize? ==>
      && WriteEnds(f, pos, size, test, clamp, free) == Done(if start < newsize then newsize - start else 0)
      && forall o :: 0 <= o < newsize ==>
           f'.data[o] == if start <= o then ByteAt(src, o - start) else if o < |f.data| then f.data[o] else 0
    ensures clamp.RaiseToSize? ==>
      && WriteEnds(f, pos, size, test, clamp, free) == (if |f.data| < newsize < start then AssertionFails else Done(0))
      && (!(|f.data| < newsize < start) ==>
            forall o :: 0 <= o < newsize ==> f'.data[o] == if o < start && o < |f.data| then f.data[o] else 0)
  {
    var endpos := start + size;
    ReachIsShort(|f.data|, endpos, free);
    ShortWriteEnds(f, pos, start, size, endpos, test, clamp, free, newsize);
    ShortWritten(clamp, f.data, start, size, src, newsize);
    EndIs(f, pos, start, size, endpos);
  }

  /** From the bounds to the end of the call. `g` is the file after it has been extended. */
  lemma {:induction false} OutcomeIs(f: File, g: File, test: ReleaseTest, clamp: Clamp, pos0: int, pos1: nat, size: nat,
                                     src: Source, newsize: nat, endpos0: nat, free: nat, free': nat, pos: int, z: int,
                                     endpos: int)
    requires SameStart(f, g) && |g.data| == newsize && pos0 >= -1
    requires pos1 == EndOfWrite(|f.data|, pos0, 0) && endpos0 == EndOfWrite(|f.data|, pos0, size)
    requires Bounds(clamp, |f.data|, pos1, size, newsize, pos, z, endpos)
    requires newsize == WriteReach(|f.data|, endpos0, free)
    requires free' + FileSize(BlocksFor(newsize)) == free + FileSize(BlocksFor(|f.data|))
    requires !(endpos0 > |f.data| && GrowthHazard(test, |f.data|, endpos0, free))
    ensures endpos <= pos ==>
      && WriteDone(f, g, pos0, size, src, test, clamp, free, free')
      && WriteEnds(f, pos0, size, test, clamp, free) == Done(0)
    ensures pos < endpos && endpos < z ==>
      && WriteDone(f, g, pos0, size, src, test, clamp, free, free')
      && WriteEnds(f, pos0, size, test, clamp, free) == AssertionFails
    ensures pos < endpos && z <= endpos ==>
      && WriteDone(f, g.(data := Filled(g.data, pos, z, endpos, src)), pos0, size, src, test, clamp, free, free')
      && WriteEnds(f, pos0, size, test, clamp, free) == Done(endpos - z)
      && 0 <= pos <= z && endpos - z <= size && endpos <= newsize
  {
    WrittenIs(clamp, f.data, pos1, size, src, g.data, newsize, pos, z, endpos);
    EndsIs(f, test, clamp, pos0, pos1, size, newsize, endpos0, free);
  }

  lemma {:induction false} EndsIs(f: File, test: ReleaseTest, clamp: Clamp, pos0: int, pos1: nat, size: nat,
                                  newsize: nat, endpos0: nat, free: nat)
    requires f.File? && pos0 >= -1 && pos1 == EndOfWrite(|f.data|, pos0, 0)
    requires endpos0 == EndOfWrite(|f.data|, pos0, size)
    requires newsize == WriteReach(|f.data|, endpos0, free)
    requires !(endpos0 > |f.data| && GrowthHazard(test, |f.data|, endpos0, free))
    ensures WriteEnds(f, pos0, size, test, clamp, free)
         == if Overshoots(clamp, |f.data|, pos1, newsize) then AssertionFails
            else Done(Reported(clamp, pos1, size, newsize))
  {
  }

  // ----- inode_write -----

  /** Makes room for a write that goes past the end of a file. */
  method Lengthen(d: Disk, inumber: nat, block: int, ghost inode0: Inode, endpos0: nat, test: ReleaseTest)
    returns (inode: Inode, lost: bool)
    requires FsOk(d.Image(), d.view) && inumber < |d.view.entries| && block == d.view.entries[inumber]
    requires 0 <= block < |d.Image()| && d.Image()[block] == InodeBlock(inode0) && endpos0 > inode0.size
    modifies d`view, d.data
    ensures FsOk(d.Image(), d.view) <==> !lost
    ensures lost <==> GrowthHazard(test, inode0.size, endpos0, |old(d.view).free|)
    ensures d.Valid() && OneFile(old(d.Image()), old(d.view), d.Image(), d.view, inumber, FileOf(d.Image(), block))
    ensures !lost ==>
      && d.Image()[block] == InodeBlock(inode) && SameStart(FileOf(old(d.Image()), block), FileOf(d.Image(), block))
      && inode0.size <= inode.size <= endpos0 && inode.size == WriteReach(inode0.size, endpos0, |old(d.view).free|)
      && |d.view.free| + FileSize(BlocksFor(inode.size)) == |old(d.view).free| + FileSize(BlocksFor(inode0.size))
  {
    ghost var img0, v0 := d.Image(), d.view;
    Loadable(img0, v0, inumber);
    var r;
    r, lost := InodeSetSize(d, inumber, endpos0, test);
    OneFileResized(img0, v0, d.Image(), d.view, inumber, block, endpos0, test, r);
    inode := Inode(false, 0, 0, []);
    if !lost {
      SizeSetWell(img0, v0, d.Image(), d.view, inumber, block, endpos0, test, r, inode0.size);
      FullWriteExactCondition(inode0.size, endpos0, |v0.free|);
      ReachedSizeExactCondition(inode0.size, endpos0, |v0.free|);
      var reloaded := d.Read(block);
      inode := reloaded.inode;
    }
  }

  /** The first half of a write: extends the file if the write would go past its end. */
  method Extend(d: Disk, inumber: nat, block: int, inode0: Inode, pos0: nat, size: nat, endpos0: nat, test: ReleaseTest,
                clamp: Clamp)
    returns (inode: Inode, pos: int, z: int, endpos: int, lost: bool)
    requires FsOk(d.Image(), d.view) && inumber < |d.view.entries| && block == d.view.entries[inumber]
    requires 0 <= block < |d.Image()|
    requires d.Image()[block] == InodeBlock(inode0) && endpos0 == pos0 + size
    modifies d`view, d.data
    ensures FsOk(d.Image(), d.view) <==> !lost
    ensures lost <==> endpos0 > inode0.size && GrowthHazard(test, inode0.size, endpos0, |old(d.view).free|)
    ensures d.Valid() && OneFile(old(d.Image()), old(d.view), d.Image(), d.view, inumber, FileOf(d.Image(), block))
    ensures endpos0 <= inode0.size ==> d.view == old(d.view)
    ensures !lost ==>
      && d.Image()[block] == InodeBlock(inode)
      && SameStart(FileOf(old(d.Image()), block), FileOf(d.Image(), block))
      && Bounds(clamp, inode0.size, pos0, size, inode.size, pos, z, endpos)
      && inode.size == WriteReach(inode0.size, endpos0, |old(d.view).free|)
      && |d.view.free| + FileSize(BlocksFor(inode.size)) == |old(d.view).free| + FileSize(BlocksFor(inode0.size))
  {
    inode, pos, z, endpos, lost := inode0, pos0, pos0, endpos0, false;
    if endpos <= inode.size {
      OneFileSame(d.Image(), d.view, inumber, block);
      return;
    }
    if pos > inode.size {
      z := pos;
      pos := inode.size;
    }
    inode, lost := Lengthen(d, inumber, block, inode0, endpos0, test);
    if lost {
      return;
    }
    assert endpos >= inode.size;
    if endpos > inode.size {
      endpos := inode.size;
      match clamp
      case RaiseToSize =>
        if z < inode.size {
          z := inode.size;
        }
      case LowerToSize =>
        if z > inode.size {
          z := inode.size;
        }
    }
  }

  /** Writes `size` bytes at `pos`, or at the end of the file if that is -1; a null buffer stands
      for zeros. The result is the number of bytes written, or -1 if there is no such inode. */
  method InodeWrite(d: Disk, inumber: nat, pos0: int, data: array?<Byte>, size: nat, test: ReleaseTest, clamp: Clamp)
    returns (outcome: Outcome)
    requires FsOk(d.Image(), d.view) && inumber < |d.view.entries| && pos0 >= -1
    requires data != null ==> data.Length >= size
    modifies d`view, d.data, data
    ensures FsOk(d.Image(), d.view) <==> outcome != LiveBlockReleased
    ensures outcome == WriteEnds(FilesOf(old(d.Image()), old(d.view).entries)[inumber], pos0, size, test, clamp,
                                 |old(d.view).free|)
    ensures d.Valid() && |d.Image()| == |old(d.Image())| && DataStart(d.Image()) == DataStart(old(d.Image()))
    ensures d.view == old(d.view).(chain := d.view.chain, free := d.view.free)
    ensures BytesIn(data) == old(BytesIn(data))
    ensures OthersKept(TreesOf(old(d.Image()), d.view.entries), TreesOf(d.Image(), d.view.entries), inumber)
    ensures WriteFrame(FilesOf(old(d.Image()), old(d.view).entries)[inumber], pos0, size, old(d.view), d.view)
    ensures var fs, fs' := FilesOf(old(d.Image()), old(d.view).entries), FilesOf(d.Image(), d.view.entries);
      && fs' == fs[inumber := fs'[inumber]]
      && (fs[inumber].Missing? ==> outcome == Done(-1) && d.Image() == old(d.Image()) && d.view == old(d.view))
      && (fs[inumber].File? && outcome != LiveBlockReleased ==>
            WriteDone(fs[inumber], fs'[inumber], pos0, size, old(SourceOf(data)), test, clamp, |old(d.view).free|,
                      |d.view.free|))
  {
    ghost var img0, v0, src := d.Image(), d.view, SourceOf(data);
    ghost var fs0 := FilesOf(img0, v0.entries);
    Loadable(img0, v0, inumber);
    var block, found, inode0 := Load(d, inumber);
    if !found {
      assert fs0[inumber] == Missing;
      return Done(-1);
    }
    assert fs0[inumber] == FileOf(img0, block);
    var pos1 := if pos0 == -1 then inode0.size else pos0;
    ghost var f';
    outcome, f' := WriteAt(d, inumber, block, inode0, pos0, pos1, data, size, pos1 + size, test, clamp);
    OneFileMeans(img0, v0, d.Image(), d.view, inumber, f');
  }

  /** A write within the file leaves the free blocks alone. */
  ghost predicate WriteFrame(f: File, pos: int, size: nat, v: View, v': View)
    requires pos >= -1
  {
    f.File? && EndOfWrite(|f.data|, pos, size) <= |f.data| ==> v' == v
  }

  /** A write at a known position, in a file that exists. */
  method WriteAt(d: Disk, inumber: nat, block: int, inode0: Inode, ghost pos0: int, pos1: nat, data: array?<Byte>,
                 size: nat, endpos0: nat, test: ReleaseTest, clamp: Clamp)
    returns (outcome: Outcome, ghost f': File)
    requires FsOk(d.Image(), d.view) && inumber < |d.view.entries| && block == d.view.entries[inumber]
    requires 0 <= block < |d.Image()|
    requires d.Image()[block] == InodeBlock(inode0) && pos0 >= -1
    requires data != null ==> data.Length >= size
    requires pos1 == EndOfWrite(inode0.size, pos0, 0) && endpos0 == EndOfWrite(inode0.size, pos0, size)
    modifies d`view, d.data, data
    ensures FsOk(d.Image(), d.view) <==> outcome != LiveBlockReleased
    ensures outcome == WriteEnds(FileOf(old(d.Image()), block), pos0, size, test, clamp, |old(d.view).free|)
    ensures d.Valid() && OneFile(old(d.Image()), old(d.view), d.Image(), d.view, inumber, f')
    ensures BytesIn(data) == old(BytesIn(data))
    ensures FileOf(old(d.Image()), block).File?
    ensures WriteFrame(FileOf(old(d.Image()), block), pos0, size, old(d.view), d.view)
    ensures outcome != LiveBlockReleased ==>
      WriteDone(FileOf(old(d.Image()), block), f', pos0, size, old(SourceOf(data)), test, clamp, |old(d.view).free|,
                |d.view.free|)
  {
    ghost var img0, v0, src, free0 := d.Image(), d.view, SourceOf(data), |d.view.free|;
    var inode, pos, z, endpos, lost := Extend(d, inumber, block, inode0, pos1, size, endpos0, test, clamp);
    ghost var img1, v1 := d.Image(), d.view;
    f' := FileOf(img1, block);
    if lost {
      return LiveBlockReleased, f';
    }
    outcome, f' := WriteRest(d, inumber, block, inode, FileOf(img0, block), img0, v0, pos0, pos1, data, size, endpos0,
                             test, clamp, pos, z, endpos);
  }

  /** What remains to be done when the file has been extended. */
  method WriteRest(d: Disk, ghost inumber: nat, block: int, inode: Inode, ghost f: File, ghost img0: Image,
                   ghost v0: View, ghost pos0: int, ghost pos1: nat, data: array?<Byte>, ghost size: nat,
                   ghost endpos0: nat, ghost test: ReleaseTest, ghost clamp: Clamp, pos: int, z: int, endpos: int)
    returns (outcome: Outcome, ghost f': File)
    requires FsOk(d.Image(), d.view) && inumber < |d.view.entries| && block == d.view.entries[inumber]
    requires 0 <= block < |d.Image()| && d.Image()[block] == InodeBlock(inode)
    requires OneFile(img0, v0, d.Image(), d.view, inumber, FileOf(d.Image(), block))
    requires SameStart(f, FileOf(d.Image(), block)) && pos0 >= -1
    requires pos1 == EndOfWrite(|f.data|, pos0, 0) && endpos0 == EndOfWrite(|f.data|, pos0, size)
    requires Bounds(clamp, |f.data|, pos1, size, inode.size, pos, z, endpos)
    requires inode.size == WriteReach(|f.data|, endpos0, |v0.free|)
    requires |d.view.free| + FileSize(BlocksFor(inode.size)) == |v0.free| + FileSize(BlocksFor(|f.data|))
    requires !(endpos0 > |f.data| && GrowthHazard(test, |f.data|, endpos0, |v0.free|))
    requires data != null ==> data.Length >= size
    modifies d.data, data
    ensures FsOk(d.Image(), d.view) && BytesIn(data) == old(BytesIn(data))
    ensures OneFile(img0, v0, d.Image(), d.view, inumber, f')
    ensures outcome == WriteEnds(f, pos0, size, test, clamp, |v0.free|) && outcome != LiveBlockReleased
    ensures WriteDone(f, f', pos0, size, old(SourceOf(data)), test, clamp, |v0.free|, |d.view.free|)
  {
    f' := FileOf(d.Image(), block);
    OutcomeIs(f, f', test, clamp, pos0, pos1, size, SourceOf(data), inode.size, endpos0, |v0.free|, |d.view.free|, pos,
              z,
              endpos);
    if endpos <= pos {
      return Done(0), f';
    }
    if endpos < z {
      return AssertionFails, f';
    }
    f' := FillAfter(d, inumber, block, inode, pos, z, endpos, data, img0, v0);
    return Done(endpos - z), f';
  }

  /** The second half of a write, after the first. */
  method FillAfter(d: Disk, ghost inumber: nat, block: int, inode: Inode, pos: int, z: int, endpos: int,
                   data: array?<Byte>, ghost img0: Image, ghost v0: View) returns (ghost f': File)
    requires FsOk(d.Image(), d.view) && inumber < |d.view.entries| && block == d.view.entries[inumber]
    requires 0 <= block < |d.Image()| && d.Image()[block] == InodeBlock(inode) && 0 <= pos <= z <= endpos <= inode.size
    requires data != null ==> data.Length >= endpos - z
    requires OneFile(img0, v0, d.Image(), d.view, inumber, FileOf(d.Image(), block))
    modifies d.data, data
    ensures FsOk(d.Image(), d.view) && BytesIn(data) == old(BytesIn(data))
    ensures OneFile(img0, v0, d.Image(), d.view, inumber, f')
    ensures var g := FileOf(old(d.Image()), block);
      g.File? && f' == g.(data := Filled(g.data, pos, z, endpos, old(SourceOf(data))))
  {
    ghost var img1, v1, src := d.Image(), d.view, SourceOf(data);
    ghost var g := FileOf(img1, block);
    Fill(d, inumber, block, inode, pos, z, endpos, data);
    f' := g.(data := Filled(g.data, pos, z, endpos, src));
    OneFileBoth(img0, v0, img1, v1, d.Image(), d.view, inumber, g, f');
  }

  // ----- inode_read -----

  /** The part of a file that a read of `size` bytes at `pos` covers. */
  ghost function Clipped(data: seq<Byte>, pos: nat, size: nat): (r: seq<Byte>)
    ensures |r| <= size
  {
    if pos + size <= |data| then data[pos..pos + size] else if pos <= |data| then data[pos..] else []
  }

  lemma {:induction false} GotClipped(img: Image, ts: seq<Tree>, total: nat, pos: nat, size: nat, was: seq<Byte>,
                                      data: seq<Byte>, endpos: nat)
    requires ReadingFile(img, ts, pos, was, data, endpos) && |data| >= size
    requires pos < endpos && endpos == if pos + size <= total then pos + size else total
    ensures |Clipped(Content(img, ts, total), pos, size)| == endpos - pos
    ensures data == Clipped(Content(img, ts, total), pos, size) + was[endpos - pos..]
  {
    var w, c := Content(img, ts, total), Clipped(Content(img, ts, total), pos, size);
    assert c == w[pos..endpos];
    forall q | 0 <= q < endpos - pos ensures data[q] == c[q] {
      var o := pos + q;
      assert ByteGot(img, ts, pos, endpos, data, o) && o - pos == q;
      assert c[q] == w[o] == FileByte(img, ts, o);
    }
  }

  /** Reads up to `size` bytes at `pos`. The result is the number of bytes read, or -1 if there is
      no such inode; nothing else in the buffer, and nothing on the disk, changes. */
  method InodeRead(d: Disk, inumber: nat, pos: nat, data: array<Byte>, size: nat) returns (r: int)
    requires FsOk(d.Image(), d.view) && inumber < |d.view.entries| && data.Length >= size
    modifies d.data, data
    ensures d.Image() == old(d.Image())
    ensures var f := FilesOf(d.Image(), d.view.entries)[inumber];
      if f.Missing? then r == -1 && data[..] == old(data[..])
      else r == |Clipped(f.data, pos, size)| && data[..] == Clipped(f.data, pos, size) + old(data[..])[r..]
  {
    ghost var img0, v0, was := d.Image(), d.view, data[..];
    Loadable(img0, v0, inumber);
    var block, found, inode := Load(d, inumber);
    if !found {
      return -1;
    }
    var endpos := pos + size;
    if endpos > inode.size {
      endpos := inode.size;
    }
    if endpos <= pos {
      return 0;
    }
    ghost var ts, n := Slots(img0, inode.blocks), BlocksFor(inode.size);
    FileClean(img0, v0, inumber, block);
    Unfolded(img0, block);
    OwnBlocksOf(v0.free, block, ts, DataStart(img0), |img0|);
    BlocksForReachable(inode.size);
    BlocksForIs(inode.size);
    var curpos := ReadSlots(d, inode.blocks, pos, endpos, data, n, ts);
    GotClipped(img0, ts, inode.size, pos, size, was, data[..], endpos);
    assert img0[block := InodeBlock(inode)] == img0;
    d.WriteOwned(block, InodeBlock(inode));
    assert curpos == endpos;
    return endpos - pos;
  }

  // ----- inode_truncate -----

  /** The first bytes of a file, and zeros after them. */
  ghost function Padded(data: seq<Byte>, size: nat): seq<Byte> {
    Zeroed(data, |data|, size)
  }

  /** How a truncation ends, in terms of what there is before the call. */
  ghost function TruncateEnds(f: File, size: nat, test: ReleaseTest, free: nat): Outcome {
    if f.Missing? then Done(-1)
    else if GrowthHazard(test, |f.data|, size, free) then LiveBlockReleased
    else Done(ReachedSize(|f.data|, size, free))
  }

  /** What a truncation does to a file that exists, if no live block is released. */
  ghost predicate TruncateDone(f: File, f': File, size: nat, free: nat, free': nat)
    requires f.File?
  {
    var newsize := ReachedSize(|f.data|, size, free);
    && f' == f.(data := Padded(f.data, newsize))
    && free' + FileSize(BlocksFor(newsize)) == free + FileSize(BlocksFor(|f.data|))
  }

  /** What a truncation means: the size asked for, or the largest there is room for; the bytes both sizes have are as
      they were, and all others are zeros. */
  lemma {:induction false} TruncateMeans(f: File, f': File, size: nat, test: ReleaseTest, free: nat, free': nat)
    requires f.File? && |f.data| <= MAX_FILESIZE && !GrowthHazard(test, |f.data|, size, free)
    requires TruncateDone(f, f', size, free, free')
    ensures f'.File? && f'.isDir == f.isDir && f'.nlinks == f.nlinks
    ensures TruncateEnds(f, size, test, free) == Done(|f'.data|)
    ensures size <= |f.data| ==> |f'.data| == size
    ensures |f.data| < size <= MAX_FILESIZE && Spend(BlocksFor(|f.data|), BlocksFor(size)) <= free ==> |f'.data| == size
    ensures |f.data| < size && !(size <= MAX_FILESIZE && Spend(BlocksFor(|f.data|), BlocksFor(size)) <= free) ==>
      |f.data| <= |f'.data| == ReachedSize(|f.data|, size, free) < size
    ensures forall o :: 0 <= o < |f'.data| ==> f'.data[o] == if o < |f.data| then f.data[o] else 0
  {
    ReachedSizeExactCondition(|f.data|, size, free);
    if size <= |f.data| {
      BlocksForMono(size, |f.data|);
    }
  }

  lemma {:induction false} PaddedIs(f: File, g: File, h: File, test: ReleaseTest, clamp: Clamp, size: nat, free': nat,
                                    free2: nat)
    requires SameStart(f, g) && |f.data| < |g.data| && size == |g.data| - |f.data|
    requires WriteDone(g, h, |f.data|, size, Zeros, test, clamp, free', free2)
    ensures h == f.(data := Padded(f.data, |g.data|)) && WriteEnds(g, |f.data|, size, test, clamp, free') == Done(size)
  {
    assert EndOfWrite(|g.data|, |f.data|, size) == |g.data|;
    assert |h.data| == |g.data|;
    assert h.data == Padded(f.data, |g.data|);
  }

  /** Sets the size of a file; what lies past its old end reads as zeros. */
  method InodeTruncate(d: Disk, inumber: nat, size: nat, test: ReleaseTest, clamp: Clamp) returns (outcome: Outcome)
    requires FsOk(d.Image(), d.view) && inumber < |d.view.entries|
    modifies d`view, d.data
    ensures FsOk(d.Image(), d.view) <==> outcome != LiveBlockReleased
    ensures outcome == TruncateEnds(FilesOf(old(d.Image()), old(d.view).entries)[inumber], size, test,
                                    |old(d.view).free|)
    ensures d.Valid() && |d.Image()| == |old(d.Image())| && DataStart(d.Image()) == DataStart(old(d.Image()))
    ensures d.view == old(d.view).(chain := d.view.chain, free := d.view.free)
    ensures OthersKept(TreesOf(old(d.Image()), d.view.entries), TreesOf(d.Image(), d.view.entries), inumber)
    ensures var fs, fs' := FilesOf(old(d.Image()), old(d.view).entries), FilesOf(d.Image(), d.view.entries);
      && fs' == fs[inumber := fs'[inumber]]
      && (fs[inumber].Missing? ==> outcome == Done(-1) && d.Image() == old(d.Image()) && d.view == old(d.view))
      && (fs[inumber].File? && outcome != LiveBlockReleased ==>
            TruncateDone(fs[inumber], fs'[inumber], size, |old(d.view).free|, |d.view.free|))
  {
    ghost var img0, v0 := d.Image(), d.view;
    ghost var fs0 := FilesOf(img0, v0.entries);
    Loadable(img0, v0, inumber);
    var block, found, inode := Load(d, inumber);
    if !found {
      assert fs0[inumber] == Missing;
      return Done(-1);
    }
    assert fs0[inumber] == FileOf(img0, block);
    ghost var f';
    outcome, f' := TruncateTo(d, inumber, block, inode.size, size, test, clamp);
    OneFileMeans(img0, v0, d.Image(), d.view, inumber, f');
  }

  /** A truncation of a file that exists. */
  method TruncateTo(d: Disk, inumber: nat, block: int, size0: nat, size: nat, test: ReleaseTest, clamp: Clamp)
    returns (outcome: Outcome, ghost f': File)
    requires FsOk(d.Image(), d.view) && inumber < |d.view.entries| && block == d.view.entries[inumber]
    requires 0 <= block < |d.Image()| && d.Image()[block].InodeBlock? && d.Image()[block].inode.size == size0
    modifies d`view, d.data
    ensures FsOk(d.Image(), d.view) <==> outcome != LiveBlockReleased
    ensures d.Valid() && OneFile(old(d.Image()), old(d.view), d.Image(), d.view, inumber, f')
    ensures var f := FileOf(old(d.Image()), block);
      && f.File? && outcome == TruncateEnds(f, size, test, |old(d.view).free|)
      && (outcome != LiveBlockReleased ==> TruncateDone(f, f', size, |old(d.view).free|, |d.view.free|))
  {
    ghost var img0, v0 := d.Image(), d.view;
    Loadable(img0, v0, inumber);
    var r, lost := InodeSetSize(d, inumber, size, test);
    ghost var f, img1, v1 := FileOf(img0, block), d.Image(), d.view;
    f' := FileOf(img1, block);
    OneFileResized(img0, v0, img1, v1, inumber, block, size, test, r);
    if lost {
      return LiveBlockReleased, f';
    }
    SizeSetWell(img0, v0, img1, v1, inumber, block, size, test, r, size0);
    ghost var g := f';
    TruncatedIs(f, g, size, r, test, |v0.free|, |v1.free|);
    f' := f.(data := Padded(f.data, r));
    if r > size0 {
      OneFileMeans(img0, v0, img1, v1, inumber, g);
      ZeroTail(d, inumber, size0, r, test, clamp, f);
      OneFileBoth(img0, v0, img1, v1, d.Image(), d.view, inumber, g, f');
    }
    return Done(r), f';
  }

  lemma {:induction false} TruncatedIs(f: File, g: File, size: nat, r: nat, test: ReleaseTest, free: nat, free': nat)
    requires SameStart(f, g) && |g.data| == r == ReachedSize(|f.data|, size, free)
    requires free' + FileSize(BlocksFor(r)) == free + FileSize(BlocksFor(|f.data|))
    requires !GrowthHazard(test, |f.data|, size, free)
    ensures TruncateEnds(f, size, test, free) == Done(r)
    ensures TruncateDone(f, f.(data := Padded(f.data, r)), size, free, free')
    ensures r <= |f.data| ==> g == f.(data := Padded(f.data, r))
  {
    if r <= |f.data| {
      assert |Padded(f.data, r)| == r;
      forall o | 0 <= o < r ensures g.data[o] == Padded(f.data, r)[o] {
      }
      assert g.data == Padded(f.data, r);
    }
  }

  /** Fills what has been added to a file with zeros. */
  method ZeroTail(d: Disk, inumber: nat, from: nat, size: nat, test: ReleaseTest, clamp: Clamp, ghost f: File)
    requires FsOk(d.Image(), d.view) && inumber < |d.view.entries|
    requires var g := FilesOf(d.Image(), d.view.entries)[inumber];
      SameStart(f, g) && |f.data| == from < size == |g.data|
    modifies d`view, d.data
    ensures FsOk(d.Image(), d.view) && d.view == old(d.view)
    ensures OneFile(old(d.Image()), d.view, d.Image(), d.view, inumber, f.(data := Padded(f.data, size)))
  {
    ghost var g, free := FilesOf(d.Image(), d.view.entries)[inumber], |d.view.free|;
    var outcome := InodeWrite(d, inumber, from, null, size - from, test, clamp);
    assert !WriteHazard(g, from, size - from, test, free);
    PaddedIs(f, g, FilesOf(d.Image(), d.view.entries)[inumber], test, clamp, size - from, free, |d.view.free|);
  }
}
