// inode_indirect_readwrite: moving bytes between a buffer and the data below one pointer.

module IndirectTransfer {
  import opened Geometry
  import opened Blocks
  import opened Trees
  import opened FreeLists
  import opened IndirectGrow

  /** What is written: zeros, or a buffer whose first byte goes to the start of the range. */
  datatype Source = Zeros | From(bytes: seq<Byte>)

  ghost function ByteAt(src: Source, q: int): Byte {
    match src
    case Zeros => 0
    case From(bytes) => if 0 <= q < |bytes| then bytes[q] else 0
  }

  /** Block `g` of the file after bytes `pos` to `endpos` have been overwritten. */
  ghost function Spliced(bytes: seq<Byte>, g: int, pos: int, endpos: int, src: Source): (r: seq<Byte>)
    ensures |r| == |bytes|
  {
    seq(|bytes|, r requires 0 <= r < |bytes| =>
      if pos <= Offset(g) + r < endpos then ByteAt(src, Offset(g) + r - pos) else bytes[r])
  }

  ghost predicate LeafWritten(before: Image, after: Image, x: int, g: int, pos: int, endpos: int, src: Source) {
    |after| == |before| && (0 <= x < |before| ==> Bytes(after[x]) == Spliced(Bytes(before[x]), g, pos, endpos, src))
  }

  /** The first `n` data blocks of a tree, which are the file's from `curblock` on, have been
      overwritten between `pos` and `endpos`. */
  ghost predicate LeavesWritten(before: Image, after: Image, t: Tree, level: nat, n: int, curblock: int, pos: int,
                                endpos: int, src: Source) {
    forall k :: 0 <= k < n ==> LeafWritten(before, after, LeafAt(t, level, k), curblock + k, pos, endpos, src)
  }

  ghost predicate ByteRead(img: Image, x: int, g: int, pos: int, endpos: int, data: seq<Byte>, r: int) {
    0 <= x < |img| && 0 <= r < BLOCKSIZE && pos <= Offset(g) + r < endpos && Offset(g) + r - pos < |data| ==>
      data[Offset(g) + r - pos] == Bytes(img[x])[r]
  }

  ghost predicate LeafRead(img: Image, x: int, g: int, pos: int, endpos: int, data: seq<Byte>) {
    forall r :: ByteRead(img, x, g, pos, endpos, data, r)
  }

  /** `data` holds the bytes from `pos` to `endpos` that lie in the tree's first `n` data blocks. */
  ghost predicate LeavesRead(img: Image, t: Tree, level: nat, n: int, curblock: int, pos: int, endpos: int,
                             data: seq<Byte>) {
    forall k :: 0 <= k < n ==> LeafRead(img, LeafAt(t, level, k), curblock + k, pos, endpos, data)
  }

  /** The buffer positions outside blocks `from` to `to`, or past the range, are as before. */
  ghost predicate BufferKept(before: seq<Byte>, after: seq<Byte>, pos: int, endpos: int, from: int, to: int) {
    && |after| == |before|
    && forall q :: 0 <= q < |before| && !(Offset(from) <= pos + q < Offset(to) && pos + q < endpos) ==>
      after[q] == before[q]
  }

  /** What a call may assume: the pointer holds the first `n` data blocks of its span, all its
      blocks are its own, and the blocks `first` to `last` meet the span only in those. */
  ghost predicate MayTransfer(img: Image, v: View, p: int, level: nat, n: int, curblock: int, first: int, last: int) {
    && Mounted(img, v) && 0 <= curblock <= last && 0 <= first <= last && first < curblock + IndirectCount(level)
    && Within(last + 1 - curblock, IndirectCount(level)) <= n <= IndirectCount(level)
    && Shape(TreeOf(img, p, level), level, n)
    && Clean(v.free, TreeOf(img, p, level), DataStart(img), |img|)
  }

  /** Only blocks of the tree have changed. */
  ghost predicate OnlyTree(before: Image, after: Image, t: Tree) {
    && |before| == |after|
    && forall x {:trigger after[x]} {:trigger before[x]} :: 0 <= x < |before| && Count(t, x) == 0 ==>
      after[x] == before[x]
  }

  /** What writing does to the disk. */
  ghost predicate WriteResult(before: Image, after: Image, v: View, p: int, level: nat, n: int, curblock: int, pos: int,
                              endpos: int, src: Source) {
    && Mounted(after, v) && |after| == |before| && DataStart(after) == DataStart(before)
    && forall u :: Look(u) ==>
         && TreeOf(after, p, level) == TreeOf(before, p, level)
         && OnlyTree(before, after, TreeOf(before, p, level))
         && LeavesWritten(before, after, TreeOf(before, p, level), level, n, curblock, pos, endpos, src)
  }

  ghost predicate ReadResult(img: Image, p: int, level: nat, n: int, curblock: int, pos: int, endpos: int,
                             was: seq<Byte>, data: seq<Byte>) {
    && BufferKept(was, data, pos, endpos, curblock, curblock + IndirectCount(level))
    && forall u :: Look(u) ==> LeavesRead(img, TreeOf(img, p, level), level, n, curblock, pos, endpos, data)
  }

  // ----- one data block -----

  /** The part of block `g` that lies in the range. */
  ghost function Overlap(from: int, to: int, pos: int, endpos: int): int {
    (if endpos < Offset(to) then endpos else Offset(to)) - (if pos < Offset(from) then Offset(from) else pos)
  }

  /** Blocks `first` to `last` are those the range meets. */
  ghost predicate RangeBlocks(pos: int, endpos: int, first: int, last: int) {
    && 0 <= first <= last && 0 <= pos < endpos
    && Offset(first) <= pos < Offset(first + 1) && Offset(last) < endpos <= Offset(last + 1)
  }

  lemma {:induction false} BlockInRange(g: int, pos: int, endpos: int, first: int, last: int)
    requires RangeBlocks(pos, endpos, first, last) && 0 <= g
    ensures g < first ==> Offset(g + 1) <= pos
    ensures g > last ==> endpos <= Offset(g)
    ensures first <= g ==> pos < Offset(g + 1)
    ensures g <= last ==> Offset(g) < endpos
  {
    if g < first {
      OffsetMono(g + 1, first);
    } else {
      OffsetMono(first + 1, g + 1);
    }
    if g > last {
      OffsetMono(last + 1, g);
    } else {
      OffsetMono(g, last);
    }
  }

  /** A block outside the range keeps its bytes. */
  lemma {:induction false} SplicedOutside(bytes: seq<Byte>, g: int, pos: int, endpos: int, src: Source, first: int,
                                          last: int)
    requires RangeBlocks(pos, endpos, first, last) && 0 <= g && |bytes| == BLOCKSIZE && !(first <= g <= last)
    ensures Spliced(bytes, g, pos, endpos, src) == bytes
  {
    BlockInRange(g, pos, endpos, first, last);
  }

  /** The bytes of a block around the part copied, as memcpy leaves them. */
  function Patched(block: seq<Byte>, delta: nat, chunk: seq<Byte>): (r: seq<Byte>)
    requires delta + |chunk| <= |block|
    ensures |r| == |block|
  {
    block[..delta] + chunk + block[delta + |chunk|..]
  }

  /** Where the range meets block `curblock`: offset in the block, offset in the buffer, length. */
  method CopyBounds(curblock: int, pos: int, endpos: int, ghost first: int, ghost last: int)
    returns (blockDelta: int, dataDelta: int, copySize: int)
    requires RangeBlocks(pos, endpos, first, last) && first <= curblock <= last
    ensures 0 <= blockDelta && 0 <= dataDelta && 0 < copySize
    ensures blockDelta + copySize <= BLOCKSIZE && dataDelta + copySize <= endpos - pos
    ensures Offset(curblock) + blockDelta == pos + dataDelta
    ensures blockDelta == 0 || dataDelta == 0
    ensures blockDelta + copySize == BLOCKSIZE || dataDelta + copySize == endpos - pos
    ensures copySize == Overlap(curblock, curblock + 1, pos, endpos)
  {
    BlockInRange(curblock, pos, endpos, first, last);
    OffsetIs(curblock);
    var blockpos := curblock * BLOCKSIZE;
    copySize := BLOCKSIZE;
    if blockpos < pos {
      dataDelta := 0;
      blockDelta := pos - blockpos;
      copySize := copySize - blockDelta;
    } else {
      dataDelta := blockpos - pos;
      blockDelta := 0;
    }
    if endpos < blockpos + BLOCKSIZE {
      copySize := copySize - (blockpos + BLOCKSIZE - endpos);
    }
  }

  lemma {:induction false} PatchedIsSpliced(bytes: seq<Byte>, was: seq<Byte>, g: int, pos: int, endpos: int,
                                            src: Source, delta: nat, from: nat, chunk: seq<Byte>)
    requires |bytes| == |was| == BLOCKSIZE && delta + |chunk| <= BLOCKSIZE && from + |chunk| <= endpos - pos
    requires |chunk| != BLOCKSIZE ==> bytes == was
    requires Offset(g) + delta == pos + from && (delta == 0 || from == 0)
    requires delta + |chunk| == BLOCKSIZE || from + |chunk| == endpos - pos
    requires forall i :: 0 <= i < |chunk| ==> chunk[i] == ByteAt(src, from + i)
    ensures Patched(bytes, delta, chunk) == Spliced(was, g, pos, endpos, src)
  {
    var r, s := Patched(bytes, delta, chunk), Spliced(was, g, pos, endpos, src);
    forall i | 0 <= i < BLOCKSIZE ensures r[i] == s[i] {
      if delta <= i < delta + |chunk| {
        assert r[i] == chunk[i - delta];
        assert Offset(g) + i - pos == from + (i - delta);
      }
    }
  }

  method WriteBlock(d: Disk, blockno: int, curblock: int, pos: int, endpos: int, data: array?<Byte>, ghost src: Source,
                    ghost first: int, ghost last: int)
    returns (copySize: int)
    requires d.Valid() && DataStart(d.Image()) <= blockno < |d.Image()| && blockno !in d.view.free
    requires RangeBlocks(pos, endpos, first, last) && first <= curblock <= last
    requires data != null ==> data.Length >= endpos - pos
    requires src == if data == null then Zeros else From(data[..])
    modifies d.data
    ensures d.Valid() && copySize == Overlap(curblock, curblock + 1, pos, endpos)
    ensures LeafWritten(old(d.Image()), d.Image(), blockno, curblock, pos, endpos, src)
    ensures forall x :: 0 <= x < |d.Image()| && x != blockno ==> d.Image()[x] == old(d.Image())[x]
  {
    var blockDelta, dataDelta;
    blockDelta, dataDelta, copySize := CopyBounds(curblock, pos, endpos, first, last);
    var bytes: seq<Byte> := seq(BLOCKSIZE, _ => 0);
    if copySize != BLOCKSIZE {
      var block := d.Read(blockno);
      bytes := Bytes(block);
    }
    var chunk := if data != null then data[dataDelta..dataDelta + copySize] else seq(copySize, _ => 0);
    PatchedIsSpliced(bytes, Bytes(d.Image()[blockno]), curblock, pos, endpos, src, blockDelta, dataDelta, chunk);
    d.WriteOwned(blockno, DataBlock(Patched(bytes, blockDelta, chunk)));
  }

  method ReadBlock(d: Disk, blockno: int, curblock: int, pos: int, endpos: int, data: array<Byte>, ghost first: int,
                   ghost last: int)
    returns (copySize: int)
    requires DataStart(d.Image()) <= blockno < |d.Image()|
    requires RangeBlocks(pos, endpos, first, last) && first <= curblock <= last
    requires data.Length >= endpos - pos
    modifies data
    ensures copySize == Overlap(curblock, curblock + 1, pos, endpos)
    ensures LeafRead(d.Image(), blockno, curblock, pos, endpos, data[..])
    ensures BufferKept(old(data[..]), data[..], pos, endpos, curblock, curblock + 1)
  {
    var blockDelta, dataDelta;
    blockDelta, dataDelta, copySize := CopyBounds(curblock, pos, endpos, first, last);
    var block := d.Read(blockno);
    var bytes := Bytes(block);
    forall q | dataDelta <= q < dataDelta + copySize {
      data[q] := bytes[blockDelta + q - dataDelta];
    }
    forall r ensures ByteRead(d.Image(), blockno, curblock, pos, endpos, data[..], r) {
      if 0 <= r < BLOCKSIZE && pos <= Offset(curblock) + r < endpos {
        var q := Offset(curblock) + r - pos;
        assert dataDelta <= q < dataDelta + copySize && blockDelta + q - dataDelta == r;
      }
    }
  }

  // ----- one indirect block -----

  /** The first data block below child `j`. */
  ghost function ChildBase(curblock: int, level: nat, j: int): int
    requires level > 0
  {
    curblock + Start(level, j)
  }

  /** A child whose data has been overwritten already, or is still as it was. */
  ghost predicate ChildMoved(before: Image, img: Image, t: Tree, level: nat, n: int, curblock: int, pos: int,
                             endpos: int, src: Source, done: bool) {
    if done then LeavesWritten(before, img, t, level, n, curblock, pos, endpos, src)
    else KeptLeaves(before, img, t, level, n)
  }

  /** The children `ts` are being overwritten, up to child `i`. */
  ghost predicate Writing(before: Image, ptrs: seq<int>, img: Image, level: nat, n: int, curblock: int, pos: int,
                          endpos: int, src: Source, i: int)
    requires level > 0
  {
    && |img| == |before| && |ptrs| == N
    && forall u :: Look(u) ==>
      var ts := Forest(before, ptrs, level - 1);
      && Forest(img, ptrs, level - 1) == ts
      && (forall x :: 0 <= x < |before| && CountAll(ts, x) == 0 ==> img[x] == before[x])
      && (forall j :: 0 <= j < N ==>
            ChildMoved(before, img, ts[j], level - 1, Share(n, level, j), ChildBase(curblock, level, j), pos, endpos,
                       src, j < i))
  }

  /** What the block's own cleanness and shape give its children. */
  ghost predicate Children(img: Image, v: View, ptrs: seq<int>, level: nat, n: int)
    requires level > 0
  {
    && |ptrs| == N && 0 <= n <= IndirectCount(level)
    && forall u :: Look(u) ==>
      var ts := Forest(img, ptrs, level - 1);
      && (forall j :: 0 <= j < N ==> Shape(ts[j], level - 1, Share(n, level, j)))
      && (forall x :: In(v.free, x) + CountAll(ts, x) <= 1)
      && (forall x :: CountAll(ts, x) > 0 ==> DataStart(img) <= x < |img|)
  }

  lemma {:induction false} HasChildren(img: Image, v: View, p: int, level: nat, n: int)
    requires level > 0 && 0 < n <= IndirectCount(level) && Shape(TreeOf(img, p, level), level, n)
    requires Clean(v.free, TreeOf(img, p, level), DataStart(img), |img|)
    ensures img[p].Indirect? && |img[p].ptrs| == N && DataStart(img) <= p < |img|
    ensures TreeOf(img, p, level) == Node(p, Forest(img, img[p].ptrs, level - 1))
    ensures CountAll(Forest(img, img[p].ptrs, level - 1), p) == 0
    ensures Children(img, v, img[p].ptrs, level, n)
  {
    var t := TreeOf(img, p, level);
    var ts := Forest(img, img[p].ptrs, level - 1);
    assert t == Node(p, t.kids) && ts == t.kids;
    assert Sole(v.free, t, DataStart(img), |img|, p);
    forall x
      ensures In(v.free, x) + CountAll(ts, x) <= 1
      ensures CountAll(ts, x) > 0 ==> DataStart(img) <= x < |img|
    {
      assert Sole(v.free, t, DataStart(img), |img|, x);
    }
  }

  /** A leaf outside the range may be seen as overwritten or as untouched. */
  lemma {:induction false} OutsideWritten(before: Image, img: Image, t: Tree, level: nat, n: int, curblock: int,
                                          pos: int, endpos: int, src: Source, first: int, last: int)
    requires RangeBlocks(pos, endpos, first, last) && 0 <= curblock && |img| == |before|
    requires curblock + n <= first || last < curblock
    requires KeptLeaves(before, img, t, level, n)
    ensures LeavesWritten(before, img, t, level, n, curblock, pos, endpos, src)
  {
    forall k | 0 <= k < n ensures LeafWritten(before, img, LeafAt(t, level, k), curblock + k, pos, endpos, src) {
      var x := LeafAt(t, level, k);
      assert KeptLeaf(before, img, x);
      if 0 <= x < |before| {
        SplicedOutside(Bytes(before[x]), curblock + k, pos, endpos, src, first, last);
      }
    }
  }

  lemma {:induction false} WriteStart(img: Image, ptrs: seq<int>, level: nat, n: int, curblock: int, pos: int,
                                      endpos: int, src: Source, first: int, last: int, from: int, to: int,
                                      startIdx: int, endIdx: int)
    requires level > 0 && |ptrs| == N && 0 <= curblock && RangeBlocks(pos, endpos, first, last)
    requires from == Within(first - curblock, IndirectCount(level)) && Span(level, from, to, startIdx, endIdx)
    ensures Writing(img, ptrs, img, level, n, curblock, pos, endpos, src, startIdx)
  {
    var ts := Forest(img, ptrs, level - 1);
    forall j | 0 <= j < N
      ensures ChildMoved(img, img, ts[j], level - 1, Share(n, level, j), ChildBase(curblock, level, j), pos, endpos,
                         src, j < startIdx)
    {
      KeptSame(img, ts[j], level - 1, Share(n, level, j));
      if j < startIdx {
        StartMono(level, j, startIdx);
        OutsideWritten(img, img, ts[j], level - 1, Share(n, level, j), ChildBase(curblock, level, j), pos, endpos, src,
                       first, last);
      }
    }
  }

  lemma {:induction false} OtherMoved(before: Image, img: Image, img': Image, ts: seq<Tree>, i: nat, j: nat, level: nat,
                                      n: int, curblock: int, pos: int, endpos: int, src: Source, done: bool)
    requires i < |ts| && j < |ts| && i != j && |img'| == |img| == |before|
    requires forall x :: CountAll(ts, x) <= 1
    requires forall x :: CountAll(ts, x) > 0 ==> 0 < x < |img|
    requires OnlyTree(img, img', ts[i])
    requires Shape(ts[j], level, n) && n <= IndirectCount(level)
    requires ChildMoved(before, img, ts[j], level, n, curblock, pos, endpos, src, done)
    ensures ChildMoved(before, img', ts[j], level, n, curblock, pos, endpos, src, done)
  {
    forall k | 0 <= k < n
      ensures done ==> LeafWritten(before, img', LeafAt(ts[j], level, k), curblock + k, pos, endpos, src)
      ensures !done ==> KeptLeaf(before, img', LeafAt(ts[j], level, k))
    {
      var x := LeafAt(ts[j], level, k);
      LeafAtMember(ts[j], level, n, k);
      CountPair(ts, i, j, x);
      assert img'[x] == img[x];
      assert done ==> LeafWritten(before, img, x, curblock + k, pos, endpos, src);
      assert !done ==> KeptLeaf(before, img, x);
    }
  }

  lemma {:induction false} ThisMoved(before: Image, img: Image, img': Image, t: Tree, level: nat, n: int, curblock: int,
                                     pos: int, endpos: int, src: Source)
    requires KeptLeaves(before, img, t, level, n) && LeavesWritten(img, img', t, level, n, curblock, pos, endpos, src)
    ensures LeavesWritten(before, img', t, level, n, curblock, pos, endpos, src)
  {
    forall k | 0 <= k < n ensures LeafWritten(before, img', LeafAt(t, level, k), curblock + k, pos, endpos, src) {
      assert KeptLeaf(before, img, LeafAt(t, level, k));
      assert LeafWritten(img, img', LeafAt(t, level, k), curblock + k, pos, endpos, src);
    }
  }

  lemma {:induction false} WriteStepChildren(before: Image, v: View, ptrs: seq<int>, ts: seq<Tree>, img: Image,
                                             level: nat, n: int, curblock: int, pos: int, endpos: int, src: Source,
                                             i: nat, base: int, img': Image)
    requires level > 0 && i < N && |ts| == N && 0 <= n && |img'| == |img| == |before|
    requires forall j :: 0 <= j < N ==> Shape(ts[j], level - 1, Share(n, level, j))
    requires forall x :: CountAll(ts, x) <= 1
    requires forall x :: CountAll(ts, x) > 0 ==> 0 < x < |img|
    requires forall j :: 0 <= j < N ==>
      ChildMoved(before, img, ts[j], level - 1, Share(n, level, j), ChildBase(curblock, level, j), pos, endpos, src,
                 j < i)
    requires base == ChildBase(curblock, level, i) && OnlyTree(img, img', ts[i])
    requires LeavesWritten(img, img', ts[i], level - 1, Share(n, level, i), base, pos, endpos, src)
    ensures forall j :: 0 <= j < N ==>
      ChildMoved(before, img', ts[j], level - 1, Share(n, level, j), ChildBase(curblock, level, j), pos, endpos, src,
                 j < i + 1)
  {
    forall j | 0 <= j < N
      ensures ChildMoved(before, img', ts[j], level - 1, Share(n, level, j), ChildBase(curblock, level, j), pos, endpos,
                         src, j < i + 1)
    {
      assert ChildMoved(before, img, ts[j], level - 1, Share(n, level, j), ChildBase(curblock, level, j), pos, endpos,
                        src, j < i);
      if j != i {
        OtherMoved(before, img, img', ts, i, j, level - 1, Share(n, level, j), ChildBase(curblock, level, j), pos,
                   endpos, src, j < i);
      } else {
        ThisMoved(before, img, img', ts[i], level - 1, Share(n, level, i), base, pos, endpos, src);
      }
    }
  }

  lemma {:induction false} ChildrenMean(img: Image, v: View, ptrs: seq<int>, ts: seq<Tree>, level: nat, n: int)
    requires level > 0 && Children(img, v, ptrs, level, n) && ts == Forest(img, ptrs, level - 1) && DataStart(img) > 0
    ensures |ts| == N && forall j :: 0 <= j < N ==> Shape(ts[j], level - 1, Share(n, level, j))
    ensures forall x :: CountAll(ts, x) <= 1
    ensures forall x :: CountAll(ts, x) > 0 ==> 0 < x < |img|
  {
    assert Look(0);
    forall x ensures CountAll(ts, x) <= 1 && (CountAll(ts, x) > 0 ==> 0 < x < |img|) {
      assert In(v.free, x) + CountAll(ts, x) <= 1;
    }
  }

  lemma {:induction false} WritingMean(before: Image, ptrs: seq<int>, ts: seq<Tree>, img: Image, level: nat, n: int,
                                       curblock: int, pos: int, endpos: int, src: Source, i: nat)
    requires level > 0 && Writing(before, ptrs, img, level, n, curblock, pos, endpos, src, i)
    requires ts == Forest(before, ptrs, level - 1)
    ensures |img| == |before| && Forest(img, ptrs, level - 1) == ts
    ensures forall x :: 0 <= x < |before| && CountAll(ts, x) == 0 ==> img[x] == before[x]
    ensures forall j :: 0 <= j < N ==>
      ChildMoved(before, img, ts[j], level - 1, Share(n, level, j), ChildBase(curblock, level, j), pos, endpos, src,
                 j < i)
  {
    assert Look(0);
  }

  lemma {:induction false} ChildWritten(img: Image, img': Image, v: View, p: int, t: Tree, level: nat, n: int,
                                        base: int, pos: int, endpos: int, src: Source)
    requires WriteResult(img, img', v, p, level, n, base, pos, endpos, src) && t == TreeOf(img, p, level)
    ensures |img'| == |img| && TreeOf(img', p, level) == t && OnlyTree(img, img', t)
    ensures LeavesWritten(img, img', t, level, n, base, pos, endpos, src)
  {
    assert Look(0);
  }

  lemma {:induction false} NowWriting(before: Image, ptrs: seq<int>, ts: seq<Tree>, img: Image, level: nat, n: int,
                                      curblock: int, pos: int, endpos: int, src: Source, i: nat)
    requires level > 0 && |img| == |before| && |ptrs| == N
    requires ts == Forest(before, ptrs, level - 1) && Forest(img, ptrs, level - 1) == ts
    requires forall x :: 0 <= x < |before| && CountAll(ts, x) == 0 ==> img[x] == before[x]
    requires forall j :: 0 <= j < N ==>
      ChildMoved(before, img, ts[j], level - 1, Share(n, level, j), ChildBase(curblock, level, j), pos, endpos, src,
                 j < i + 1)
    ensures Writing(before, ptrs, img, level, n, curblock, pos, endpos, src, i + 1)
  {
  }

  lemma {:induction false} WriteStep(before: Image, v: View, ptrs: seq<int>, img: Image, level: nat, n: int,
                                     curblock: int, pos: int, endpos: int, src: Source, i: nat, base: int, img': Image)
    requires level > 0 && i < N && Children(before, v, ptrs, level, n) && DataStart(before) > 0
    requires Writing(before, ptrs, img, level, n, curblock, pos, endpos, src, i)
    requires base == ChildBase(curblock, level, i)
    requires WriteResult(img, img', v, ptrs[i], level - 1, Share(n, level, i), base, pos, endpos, src)
    ensures Writing(before, ptrs, img', level, n, curblock, pos, endpos, src, i + 1)
  {
    var ts := Forest(before, ptrs, level - 1);
    ChildrenMean(before, v, ptrs, ts, level, n);
    WritingMean(before, ptrs, ts, img, level, n, curblock, pos, endpos, src, i);
    assert ts[i] == Forest(img, ptrs, level - 1)[i] == TreeOf(img, ptrs[i], level - 1);
    ChildWritten(img, img', v, ptrs[i], ts[i], level - 1, Share(n, level, i), base, pos, endpos, src);
    WriteStepChildren(before, v, ptrs, ts, img, level, n, curblock, pos, endpos, src, i, base, img');
    ElsewhereKept(before, img, img', ts, i);
    SiblingsKept(img, img', ptrs, ts, level - 1, i);
    NowWriting(before, ptrs, ts, img', level, n, curblock, pos, endpos, src, i);
  }

  lemma {:induction false} ElsewhereKept(before: Image, img: Image, img': Image, ts: seq<Tree>, i: nat)
    requires i < |ts| && OnlyTree(img, img', ts[i]) && |img| == |before|
    requires forall x :: 0 <= x < |before| && CountAll(ts, x) == 0 ==> img[x] == before[x]
    ensures forall x :: 0 <= x < |before| && CountAll(ts, x) == 0 ==> img'[x] == before[x]
  {
    forall x | 0 <= x < |before| && CountAll(ts, x) == 0 ensures img'[x] == before[x] {
      CountMember(ts, i, x);
    }
  }

  /** Rewriting data below child `i` changes no tree. */
  lemma {:induction false} SiblingsKept(img: Image, img': Image, ptrs: seq<int>, ts: seq<Tree>, level: nat, i: nat)
    requires i < |ptrs| && ts == Forest(img, ptrs, level) && TreeOf(img', ptrs[i], level) == ts[i]
    requires forall x :: CountAll(ts, x) <= 1
    requires OnlyTree(img, img', ts[i])
    ensures Forest(img', ptrs, level) == ts
  {
    forall j | 0 <= j < |ptrs| ensures TreeOf(img', ptrs[j], level) == ts[j] {
      if j != i {
        forall x | 0 <= x < |img| && Count(ts[j], x) > 0 ensures img'[x] == img[x] {
          CountPair(ts, i, j, x);
        }
        TreeFrame(img, img', ptrs[j], level);
      }
    }
  }

  lemma {:induction false} WriteEnd(before: Image, v: View, p: int, img: Image, level: nat, n: int, curblock: int,
                                    pos: int, endpos: int, src: Source, first: int, last: int, from: int, to: int,
                                    startIdx: int, endIdx: int)
    requires MayTransfer(before, v, p, level, n, curblock, first, last) && level > 0 && 0 < n
    requires RangeBlocks(pos, endpos, first, last)
    requires to == Within(last + 1 - curblock, IndirectCount(level)) && Span(level, from, to, startIdx, endIdx)
    requires before[p].Indirect? && Children(before, v, before[p].ptrs, level, n) && 0 <= p < |before|
    requires TreeOf(before, p, level) == Node(p, Forest(before, before[p].ptrs, level - 1))
    requires CountAll(Forest(before, before[p].ptrs, level - 1), p) == 0
    requires Writing(before, before[p].ptrs, img, level, n, curblock, pos, endpos, src, endIdx + 1)
    requires Mounted(img, v) && DataStart(img) == DataStart(before)
    ensures WriteResult(before, img, v, p, level, n, curblock, pos, endpos, src)
  {
    assert Look(0);
    var ptrs := before[p].ptrs;
    var ts := Forest(before, ptrs, level - 1);
    var t := TreeOf(before, p, level);
    assert img[p] == before[p];
    assert TreeOf(img, p, level).kids == ts;
    forall k | 0 <= k < n ensures LeafWritten(before, img, LeafAt(t, level, k), curblock + k, pos, endpos, src) {
      WriteEndLeaf(before, img, ts, level, n, curblock, pos, endpos, src, first, last, from, to, startIdx, endIdx, k);
    }
    forall x | 0 <= x < |before| && Count(t, x) == 0 ensures img[x] == before[x] {
      assert CountAll(ts, x) == 0;
    }
  }

  lemma {:induction false} WriteEndLeaf(before: Image, img: Image, ts: seq<Tree>, level: nat, n: int, curblock: int,
                                        pos: int, endpos: int, src: Source, first: int, last: int, from: int, to: int,
                                        startIdx: int, endIdx: int, k: int)
    requires level > 0 && |ts| == N && 0 <= k < n <= IndirectCount(level) && 0 <= curblock && |img| == |before|
    requires RangeBlocks(pos, endpos, first, last)
    requires to == Within(last + 1 - curblock, IndirectCount(level)) && Span(level, from, to, startIdx, endIdx)
    requires forall j :: 0 <= j < N ==>
      ChildMoved(before, img, ts[j], level - 1, Share(n, level, j), ChildBase(curblock, level, j), pos, endpos, src,
                 j < endIdx + 1)
    ensures LeafWritten(before, img, LeafAt(ts[ChildOf(level, k)], level - 1, Rest(level, k)), curblock + k, pos,
                        endpos, src)
  {
    var j, r := ChildOf(level, k), Rest(level, k);
    ShareHolds(n, level, k);
    var base, share := ChildBase(curblock, level, j), Share(n, level, j);
    assert ChildMoved(before, img, ts[j], level - 1, share, base, pos, endpos, src, j < endIdx + 1);
    if j > endIdx {
      StartMono(level, endIdx + 1, j);
      OutsideWritten(before, img, ts[j], level - 1, share, base, pos, endpos, src, first, last);
    }
    assert LeafWritten(before, img, LeafAt(ts[j], level - 1, r), base + r, pos, endpos, src);
    assert base + r == curblock + k;
  }

  /** The buffer is being filled from the children, up to child `i`. */
  ghost predicate Reading(img: Image, ptrs: seq<int>, level: nat, n: int, curblock: int, pos: int, endpos: int,
                          was: seq<Byte>, data: seq<Byte>, i: int)
    requires level > 0
  {
    && |ptrs| == N && BufferKept(was, data, pos, endpos, curblock, ChildBase(curblock, level, i))
    && forall u :: Look(u) ==>
      var ts := Forest(img, ptrs, level - 1);
      forall j :: 0 <= j < N && j < i ==>
        LeavesRead(img, ts[j], level - 1, Share(n, level, j), ChildBase(curblock, level, j), pos, endpos, data)
  }

  /** A leaf outside the range puts nothing in the buffer. */
  lemma {:induction false} OutsideRead(img: Image, t: Tree, level: nat, n: int, curblock: int, pos: int, endpos: int,
                                       data: seq<Byte>, first: int, last: int)
    requires RangeBlocks(pos, endpos, first, last) && 0 <= curblock
    requires curblock + n <= first || last < curblock
    ensures LeavesRead(img, t, level, n, curblock, pos, endpos, data)
  {
    forall k | 0 <= k < n ensures LeafRead(img, LeafAt(t, level, k), curblock + k, pos, endpos, data) {
      var x, g := LeafAt(t, level, k), curblock + k;
      BlockInRange(g, pos, endpos, first, last);
      forall r ensures ByteRead(img, x, g, pos, endpos, data, r) {
      }
    }
  }

  /** Filling the buffer from later blocks keeps what came from earlier ones. */
  lemma {:induction false} EarlierRead(img: Image, t: Tree, level: nat, n: int, curblock: int, pos: int, endpos: int,
                                       data: seq<Byte>, data': seq<Byte>, from: int, to: int)
    requires LeavesRead(img, t, level, n, curblock, pos, endpos, data) && BufferKept(data, data', pos, endpos, from, to)
    requires 0 <= curblock && curblock + n <= from
    ensures LeavesRead(img, t, level, n, curblock, pos, endpos, data')
  {
    forall k | 0 <= k < n ensures LeafRead(img, LeafAt(t, level, k), curblock + k, pos, endpos, data') {
      var x, g := LeafAt(t, level, k), curblock + k;
      assert LeafRead(img, x, g, pos, endpos, data);
      OffsetMono(g + 1, from);
      forall r ensures ByteRead(img, x, g, pos, endpos, data', r) {
        assert ByteRead(img, x, g, pos, endpos, data, r);
      }
    }
  }

  lemma {:induction false} ReadStart(img: Image, ptrs: seq<int>, level: nat, n: int, curblock: int, pos: int,
                                     endpos: int, data: seq<Byte>, first: int, last: int, from: int, to: int,
                                     startIdx: int, endIdx: int)
    requires level > 0 && |ptrs| == N && 0 <= curblock && RangeBlocks(pos, endpos, first, last)
    requires from == Within(first - curblock, IndirectCount(level)) && Span(level, from, to, startIdx, endIdx)
    ensures Reading(img, ptrs, level, n, curblock, pos, endpos, data, data, startIdx)
  {
    var ts := Forest(img, ptrs, level - 1);
    forall j | 0 <= j < N && j < startIdx
      ensures LeavesRead(img, ts[j], level - 1, Share(n, level, j), ChildBase(curblock, level, j), pos, endpos, data)
    {
      StartMono(level, j, startIdx);
      OutsideRead(img, ts[j], level - 1, Share(n, level, j), ChildBase(curblock, level, j), pos, endpos, data, first,
                  last);
    }
  }

  lemma {:induction false} ReadStep(img: Image, ptrs: seq<int>, level: nat, n: int, curblock: int, pos: int,
                                    endpos: int, was: seq<Byte>, data: seq<Byte>, i: nat, base: int, data': seq<Byte>)
    requires level > 0 && i < N && 0 <= curblock
    requires Reading(img, ptrs, level, n, curblock, pos, endpos, was, data, i)
    requires base == ChildBase(curblock, level, i)
    requires ReadResult(img, ptrs[i], level - 1, Share(n, level, i), base, pos, endpos, data, data')
    ensures Reading(img, ptrs, level, n, curblock, pos, endpos, was, data', i + 1)
  {
    var next := base + IndirectCount(level - 1);
    assert next == ChildBase(curblock, level, i + 1);
    OffsetMono(base, next);
    OffsetMono(curblock, base);
    ChildrenRead(img, ptrs, Forest(img, ptrs, level - 1), level, n, curblock, pos, endpos, was, data, i, base, next,
                 data');
  }

  lemma {:induction false} ChildrenRead(img: Image, ptrs: seq<int>, ts: seq<Tree>, level: nat, n: int, curblock: int,
                                        pos: int, endpos: int, was: seq<Byte>, data: seq<Byte>, i: nat, base: int,
                                        next: int, data': seq<Byte>)
    requires level > 0 && i < N && 0 <= curblock && next == base + IndirectCount(level - 1)
    requires Reading(img, ptrs, level, n, curblock, pos, endpos, was, data, i) && ts == Forest(img, ptrs, level - 1)
    requires base == ChildBase(curblock, level, i)
    requires ReadResult(img, ptrs[i], level - 1, Share(n, level, i), base, pos, endpos, data, data')
    ensures forall j :: 0 <= j < N && j < i + 1 ==>
      LeavesRead(img, ts[j], level - 1, Share(n, level, j), ChildBase(curblock, level, j), pos, endpos, data')
  {
    assert Look(0);
    forall j | 0 <= j < N && j < i + 1
      ensures LeavesRead(img, ts[j], level - 1, Share(n, level, j), ChildBase(curblock, level, j), pos, endpos, data')
    {
      if j < i {
        StartMono(level, j, i);
        EarlierRead(img, ts[j], level - 1, Share(n, level, j), ChildBase(curblock, level, j), pos, endpos, data, data',
                    base, next);
      }
    }
  }

  lemma {:induction false} ReadEndLeaf(img: Image, ts: seq<Tree>, level: nat, n: int, curblock: int, pos: int,
                                       endpos: int, data: seq<Byte>, first: int, last: int, from: int, to: int,
                                       startIdx: int, endIdx: int, k: int)
    requires level > 0 && |ts| == N && 0 <= k < n <= IndirectCount(level) && 0 <= curblock
    requires RangeBlocks(pos, endpos, first, last)
    requires to == Within(last + 1 - curblock, IndirectCount(level)) && Span(level, from, to, startIdx, endIdx)
    requires forall j :: 0 <= j < N && j < endIdx + 1 ==>
      LeavesRead(img, ts[j], level - 1, Share(n, level, j), ChildBase(curblock, level, j), pos, endpos, data)
    ensures LeafRead(img, LeafAt(ts[ChildOf(level, k)], level - 1, Rest(level, k)), curblock + k, pos, endpos, data)
  {
    var j, r := ChildOf(level, k), Rest(level, k);
    ShareHolds(n, level, k);
    var base, share := ChildBase(curblock, level, j), Share(n, level, j);
    if j > endIdx {
      StartMono(level, endIdx + 1, j);
      OutsideRead(img, ts[j], level - 1, share, base, pos, endpos, data, first, last);
    }
    assert LeavesRead(img, ts[j], level - 1, share, base, pos, endpos, data);
    assert LeafRead(img, LeafAt(ts[j], level - 1, r), base + r, pos, endpos, data);
    assert base + r == curblock + k;
  }

  lemma {:induction false} ReadEnd(img: Image, p: int, ptrs: seq<int>, level: nat, n: int, curblock: int, pos: int,
                                   endpos: int, was: seq<Byte>, data: seq<Byte>, first: int, last: int, from: int,
                                   to: int, startIdx: int, endIdx: int)
    requires level > 0 && 0 < n <= IndirectCount(level) && 0 <= curblock && RangeBlocks(pos, endpos, first, last)
    requires to == Within(last + 1 - curblock, IndirectCount(level)) && Span(level, from, to, startIdx, endIdx)
    requires |ptrs| == N && TreeOf(img, p, level) == Node(p, Forest(img, ptrs, level - 1))
    requires Reading(img, ptrs, level, n, curblock, pos, endpos, was, data, endIdx + 1)
    ensures ReadResult(img, p, level, n, curblock, pos, endpos, was, data)
  {
    assert Look(0);
    var ts := Forest(img, ptrs, level - 1);
    StartMono(level, endIdx + 1, N);
    OffsetMono(ChildBase(curblock, level, endIdx + 1), curblock + IndirectCount(level));
    forall k | 0 <= k < n ensures LeafRead(img, LeafAt(Node(p, ts), level, k), curblock + k, pos, endpos, data) {
      ReadEndLeaf(img, ts, level, n, curblock, pos, endpos, data, first, last, from, to, startIdx, endIdx, k);
    }
  }

  // ----- the procedure -----

  ghost function BytesIn(data: array?<Byte>): seq<Byte>
    reads data
  {
    if data == null then [] else data[..]
  }

  ghost function SourceOf(data: array?<Byte>): Source
    reads data
  {
    if data == null then Zeros else From(data[..])
  }

  /** The children to visit for the blocks `first` to `last`, both included. */
  method BlockRange(curblock: int, level: nat, pos: int, endpos: int, ghost first: int,
                    ghost last: int) returns (startIdx: int, endIdx: int)
    requires level > 0 && RangeBlocks(pos, endpos, first, last) && first < curblock + IndirectCount(level)
    requires curblock <= last
    ensures Span(level, Within(first - curblock, IndirectCount(level)),
                 Within(last + 1 - curblock, IndirectCount(level)), startIdx, endIdx)
  {
    var subCount := IndirectCount(level - 1);
    var endblock := curblock + N * subCount - 1;
    var firstBlock := OffsetToBlock(pos);
    var lastBlock := OffsetToBlock(endpos - 1);
    BlockIs(pos, first);
    BlockIs(endpos - 1, last);
    startIdx := 0;
    endIdx := N - 1;
    if curblock < firstBlock {
      startIdx := startIdx + (firstBlock - curblock) / subCount;
    }
    if endblock > lastBlock {
      endIdx := endIdx - (endblock - lastBlock) / subCount;
    }
    StartIs(level, N);
    Range(level, first - curblock, last + 1 - curblock, startIdx, endIdx);
  }

  /** The bytes moved so far when the loop has reached child `i`. */
  ghost function MovedSoFar(curblock: int, level: nat, pos: int, endpos: int, startIdx: int, i: int): int
    requires level > 0
  {
    if i == startIdx then 0 else Overlap(curblock, ChildBase(curblock, level, i), pos, endpos)
  }

  lemma {:induction false} MovedStep(curblock: int, level: nat, pos: int, endpos: int, first: int, last: int, from: int,
                                     to: int, startIdx: int, endIdx: int, i: nat, base: int)
    requires level > 0 && 0 <= curblock && RangeBlocks(pos, endpos, first, last)
    requires from == Within(first - curblock, IndirectCount(level))
    requires to == Within(last + 1 - curblock, IndirectCount(level))
    requires Span(level, from, to, startIdx, endIdx) && startIdx <= i <= endIdx
    requires base == ChildBase(curblock, level, i) && first < curblock + IndirectCount(level)
    ensures first < base + IndirectCount(level - 1) && base <= last
    ensures MovedSoFar(curblock, level, pos, endpos, startIdx, i + 1)
         == MovedSoFar(curblock, level, pos, endpos, startIdx, i)
            + Overlap(base, base + IndirectCount(level - 1), pos, endpos)
  {
    var next := base + IndirectCount(level - 1);
    StartMono(level, startIdx, i);
    StartMono(level, i, endIdx);
    StartMono(level, endIdx, N);
    OffsetMono(curblock, base);
    OffsetMono(base, last);
    assert ChildBase(curblock, level, i + 1) == next;
    if i == startIdx {
      if i > 0 {
        assert base <= first;
        OffsetMono(base, first);
      }
    } else {
      StartMono(level, startIdx + 1, i);
      OffsetMono(first + 1, base);
    }
  }

  lemma {:induction false} MovedAll(curblock: int, level: nat, pos: int, endpos: int, first: int, last: int, from: int,
                                    to: int, startIdx: int, endIdx: int)
    requires level > 0 && 0 <= curblock <= last && RangeBlocks(pos, endpos, first, last)
    requires to == Within(last + 1 - curblock, IndirectCount(level)) && Span(level, from, to, startIdx, endIdx)
    ensures MovedSoFar(curblock, level, pos, endpos, startIdx, endIdx + 1)
         == Overlap(curblock, curblock + IndirectCount(level), pos, endpos)
  {
    var next := ChildBase(curblock, level, endIdx + 1);
    StartMono(level, endIdx + 1, N);
    if endIdx + 1 < N {
      assert last + 1 <= next;
      OffsetMono(last + 1, next);
      OffsetMono(next, curblock + IndirectCount(level));
    }
  }

  /** The state of the loop over the children, for either direction. */
  ghost predicate Moving(write: bool, before: Image, ptrs: seq<int>, img: Image, level: nat, n: int, curblock: int,
                         pos: int, endpos: int, src: Source, was: seq<Byte>, buffer: seq<Byte>, i: int)
    requires level > 0
  {
    if write then buffer == was && Writing(before, ptrs, img, level, n, curblock, pos, endpos, src, i)
    else img == before && Reading(img, ptrs, level, n, curblock, pos, endpos, was, buffer, i)
  }

  ghost predicate Moved(write: bool, before: Image, img: Image, v: View, p: int, level: nat, n: int, curblock: int,
                        pos: int, endpos: int, src: Source, was: seq<Byte>, buffer: seq<Byte>)
  {
    if write then buffer == was && WriteResult(before, img, v, p, level, n, curblock, pos, endpos, src)
    else img == before && ReadResult(img, p, level, n, curblock, pos, endpos, was, buffer)
  }

  lemma {:induction false} ChildReady(write: bool, before: Image, v: View, ptrs: seq<int>, img: Image, level: nat,
                                      n: int, curblock: int, pos: int, endpos: int, src: Source, was: seq<Byte>,
                                      buffer: seq<Byte>, i: nat, base: int, first: int, last: int, to: int)
    requires level > 0 && i < N && Children(before, v, ptrs, level, n) && Mounted(img, v)
    requires DataStart(img) == DataStart(before)
    requires Moving(write, before, ptrs, img, level, n, curblock, pos, endpos, src, was, buffer, i)
    requires base == ChildBase(curblock, level, i) && 0 <= curblock && 0 <= first <= last
    requires first < base + IndirectCount(level - 1) && base <= last
    requires to == Within(last + 1 - curblock, IndirectCount(level)) && to <= n
    ensures MayTransfer(img, v, ptrs[i], level - 1, Share(n, level, i), base, first, last)
  {
    assert Look(0);
    var ts := Forest(before, ptrs, level - 1);
    assert Forest(img, ptrs, level - 1) == ts;
    assert TreeOf(img, ptrs[i], level - 1) == Forest(img, ptrs, level - 1)[i] == ts[i];
    ShareWithin(last + 1, curblock, base, level, i, to);
    forall x ensures Sole(v.free, ts[i], DataStart(img), |img|, x) {
      CountMember(ts, i, x);
      assert In(v.free, x) + CountAll(ts, x) <= 1;
      assert CountAll(ts, x) > 0 ==> DataStart(before) <= x < |before|;
      FreeInData(img, v, x);
    }
  }

  lemma {:induction false} FreeInData(img: Image, v: View, x: int)
    requires Mounted(img, v)
    ensures x in v.free ==> DataStart(img) <= x < |img|
  {
    assert FreeAt(img, v.chain, v.free, x);
  }

  /** The children to visit are those the range meets. */
  ghost predicate RangePlan(level: nat, n: int, curblock: int, pos: int, endpos: int, first: int, last: int, from: int,
                            to: int, startIdx: int, endIdx: int)
    requires level > 0
  {
    forall u :: Look(u) ==>
      && 0 <= curblock && RangeBlocks(pos, endpos, first, last) && first < curblock + IndirectCount(level)
      && from == Within(first - curblock, IndirectCount(level))
      && to == Within(last + 1 - curblock, IndirectCount(level)) && to <= n
      && Span(level, from, to, startIdx, endIdx)
  }

  lemma {:induction false} RangePlanMeans(level: nat, n: int, curblock: int, pos: int, endpos: int, first: int,
                                          last: int, from: int, to: int, startIdx: int, endIdx: int)
    requires level > 0 && RangePlan(level, n, curblock, pos, endpos, first, last, from, to, startIdx, endIdx)
    ensures 0 <= curblock && RangeBlocks(pos, endpos, first, last) && first < curblock + IndirectCount(level)
    ensures from == Within(first - curblock, IndirectCount(level))
    ensures to == Within(last + 1 - curblock, IndirectCount(level)) && to <= n
    ensures Span(level, from, to, startIdx, endIdx) && 0 <= startIdx && endIdx < N
  {
    assert Look(0);
  }

  /** Child `i` is ready to be visited, and what it adds to the count. */
  lemma {:induction false} ChildPlanned(write: bool, before: Image, v: View, ptrs: seq<int>, img: Image, level: nat,
                                        n: int, curblock: int, pos: int, endpos: int, src: Source, was: seq<Byte>,
                                        buffer: seq<Byte>, first: int, last: int, from: int, to: int, startIdx: int,
                                        endIdx: int, i: int, base: int, next: int)
    requires level > 0 && Children(before, v, ptrs, level, n) && Mounted(img, v) && DataStart(img) == DataStart(before)
    requires RangePlan(level, n, curblock, pos, endpos, first, last, from, to, startIdx, endIdx)
    requires 0 <= startIdx <= i <= endIdx && next == i + 1 && base == ChildBase(curblock, level, i)
    requires Moving(write, before, ptrs, img, level, n, curblock, pos, endpos, src, was, buffer, i)
    ensures 0 <= i < N && 0 <= curblock && RangeBlocks(pos, endpos, first, last)
    ensures MayTransfer(img, v, ptrs[i], level - 1, Share(n, level, i), base, first, last)
    ensures MovedSoFar(curblock, level, pos, endpos, startIdx, next)
         == MovedSoFar(curblock, level, pos, endpos, startIdx, i)
            + Overlap(base, base + IndirectCount(level - 1), pos, endpos)
  {
    RangePlanMeans(level, n, curblock, pos, endpos, first, last, from, to, startIdx, endIdx);
    MovedStep(curblock, level, pos, endpos, first, last, from, to, startIdx, endIdx, i, base);
    ChildReady(write, before, v, ptrs, img, level, n, curblock, pos, endpos, src, was, buffer, i, base, first, last,
               to);
  }

  /** The visit to child `i` has moved its share. */
  lemma {:induction false} MovingStep(write: bool, before: Image, v: View, ptrs: seq<int>, img: Image, level: nat,
                                      n: int, curblock: int, pos: int, endpos: int, src: Source, was: seq<Byte>,
                                      buffer: seq<Byte>, i: nat, base: int, img': Image, buffer': seq<Byte>, next: int)
    requires level > 0 && i < N && 0 <= curblock && Children(before, v, ptrs, level, n) && DataStart(before) > 0
    requires Moving(write, before, ptrs, img, level, n, curblock, pos, endpos, src, was, buffer, i)
    requires base == ChildBase(curblock, level, i) && next == i + 1
    requires Moved(write, img, img', v, ptrs[i], level - 1, Share(n, level, i), base, pos, endpos, src, buffer, buffer')
    ensures Moving(write, before, ptrs, img', level, n, curblock, pos, endpos, src, was, buffer', next)
  {
    if write {
      WriteStep(before, v, ptrs, img, level, n, curblock, pos, endpos, src, i, base, img');
    } else {
      ReadStep(img, ptrs, level, n, curblock, pos, endpos, was, buffer, i, base, buffer');
    }
  }

  method TransferChildrenOf(d: Disk, indirectData: seq<int>, curblock: int, level: nat, pos: int, endpos: int,
                            data: array?<Byte>, write: bool, startIdx: int, endIdx: int, ghost img0: Image,
                            ghost n: int, ghost src: Source, ghost first: int, ghost last: int, ghost from: int,
                            ghost to: int)
    returns (result: int)
    requires level > 0 && d.Valid() && d.Image() == img0 && Children(img0, d.view, indirectData, level, n)
    requires 0 <= curblock && RangeBlocks(pos, endpos, first, last) && first < curblock + IndirectCount(level)
    requires from == Within(first - curblock, IndirectCount(level))
    requires to == Within(last + 1 - curblock, IndirectCount(level)) && to <= n
    requires Span(level, from, to, startIdx, endIdx)
    requires data != null ==> data.Length >= endpos - pos
    requires !write ==> data != null
    requires write ==> src == SourceOf(data)
    modifies d.data, data
    decreases level, 1
    ensures d.Valid() && DataStart(d.Image()) == DataStart(img0)
    ensures result == MovedSoFar(curblock, level, pos, endpos, startIdx, endIdx + 1)
    ensures Moving(write, img0, indirectData, d.Image(), level, n, curblock, pos, endpos, src, old(BytesIn(data)),
                   BytesIn(data), endIdx + 1)
  {
    ghost var was := BytesIn(data);
    if write {
      WriteStart(img0, indirectData, level, n, curblock, pos, endpos, src, first, last, from, to, startIdx, endIdx);
    } else {
      ReadStart(img0, indirectData, level, n, curblock, pos, endpos, was, first, last, from, to, startIdx, endIdx);
    }
    assert RangePlan(level, n, curblock, pos, endpos, first, last, from, to, startIdx, endIdx);
    result := 0;
    var i := startIdx;
    while i <= endIdx
      invariant startIdx <= i <= endIdx + 1
      invariant d.Valid() && DataStart(d.Image()) == DataStart(img0) && (write ==> src == SourceOf(data))
      invariant result == MovedSoFar(curblock, level, pos, endpos, startIdx, i)
      invariant Moving(write, img0, indirectData, d.Image(), level, n, curblock, pos, endpos, src, was, BytesIn(data),
                       i)
    {
      var moved, next := TransferChild(d, indirectData, i, curblock, level, pos, endpos, data, write, startIdx, endIdx,
                                       img0, n, src, first, last, from, to, was);
      result := result + moved;
      i := next;
    }
  }

  method TransferChild(d: Disk, indirectData: seq<int>, i: int, curblock: int, level: nat, pos: int, endpos: int,
                       data: array?<Byte>, write: bool, ghost startIdx: int, ghost endIdx: int, ghost img0: Image,
                       ghost n: int, ghost src: Source, ghost first: int, ghost last: int, ghost from: int,
                       ghost to: int, ghost was: seq<Byte>)
    returns (moved: int, next: int)
    requires level > 0 && d.Valid() && DataStart(d.Image()) == DataStart(img0)
    requires Children(img0, d.view, indirectData, level, n)
    requires RangePlan(level, n, curblock, pos, endpos, first, last, from, to, startIdx, endIdx)
    requires 0 <= startIdx <= i <= endIdx
    requires data != null ==> data.Length >= endpos - pos
    requires !write ==> data != null
    requires write ==> src == SourceOf(data)
    requires Moving(write, img0, indirectData, d.Image(), level, n, curblock, pos, endpos, src, was, BytesIn(data), i)
    modifies d.data, data
    decreases level, 0
    ensures d.Valid() && DataStart(d.Image()) == DataStart(img0)
    ensures next == i + 1
    ensures MovedSoFar(curblock, level, pos, endpos, startIdx, next)
         == MovedSoFar(curblock, level, pos, endpos, startIdx, i) + moved
    ensures write ==> src == SourceOf(data)
    ensures Moving(write, img0, indirectData, d.Image(), level, n, curblock, pos, endpos, src, was, BytesIn(data), next)
  {
    ghost var img, buffer, v := d.Image(), BytesIn(data), d.view;
    var childBlock := ChildBlock(curblock, level, i);
    next := i + 1;
    ChildPlanned(write, img0, v, indirectData, img, level, n, curblock, pos, endpos, src, was, buffer, first, last,
                 from, to,
                 startIdx, endIdx, i, childBlock, next);
    moved := IndirectReadWrite(d, indirectData[i], childBlock, level - 1, pos, endpos, data, write, Share(n, level, i),
                               src, first, last);
    MovingStep(write, img0, v, indirectData, img, level, n, curblock, pos, endpos, src, was, buffer, i, childBlock,
               d.Image(),
               BytesIn(data), next);
  }

  /** Moves the bytes of the range that lie below `blockno`, and returns how many. A null buffer
      stands for zeros. */
  method IndirectReadWrite(d: Disk, blockno: int, curblock: int, level: nat, pos: int, endpos: int, data: array?<Byte>,
                           write: bool, ghost n: int, ghost src: Source, ghost first: int, ghost last: int)
    returns (result: int)
    requires RangeBlocks(pos, endpos, first, last)
    requires MayTransfer(d.Image(), d.view, blockno, level, n, curblock, first, last)
    requires data != null ==> data.Length >= endpos - pos
    requires !write ==> data != null
    requires write ==> src == SourceOf(data)
    modifies d.data, data
    decreases level, 2
    ensures d.Valid() && DataStart(d.Image()) == DataStart(old(d.Image()))
    ensures result == Overlap(curblock, curblock + IndirectCount(level), pos, endpos)
    ensures Moved(write, old(d.Image()), d.Image(), d.view, blockno, level, n, curblock, pos, endpos, src,
                  old(BytesIn(data)), BytesIn(data))
  {
    ghost var img0, v := d.Image(), d.view;
    assert blockno != EOF;
    if level == 0 {
      result := TransferLeaf(d, blockno, curblock, pos, endpos, data, write, n, src, first, last);
      return;
    }
    HasChildren(img0, v, blockno, level, n);
    var block := d.Read(blockno);
    var indirectData := block.ptrs;
    var startIdx, endIdx := BlockRange(curblock, level, pos, endpos, first, last);
    ghost var from := Within(first - curblock, IndirectCount(level));
    ghost var to := Within(last + 1 - curblock, IndirectCount(level));
    result := TransferChildrenOf(d, indirectData, curblock, level, pos, endpos, data, write, startIdx, endIdx, img0, n,
                                 src, first, last, from, to);
    MovedAll(curblock, level, pos, endpos, first, last, from, to, startIdx, endIdx);
    if write {
      WriteEnd(img0, v, blockno, d.Image(), level, n, curblock, pos, endpos, src, first, last, from, to, startIdx,
               endIdx);
    } else {
      ReadEnd(img0, blockno, indirectData, level, n, curblock, pos, endpos, old(BytesIn(data)), BytesIn(data), first,
              last, from, to, startIdx, endIdx);
    }
  }

  method TransferLeaf(d: Disk, blockno: int, curblock: int, pos: int, endpos: int, data: array?<Byte>, write: bool,
                      ghost n: int, ghost src: Source, ghost first: int, ghost last: int)
    returns (result: int)
    requires RangeBlocks(pos, endpos, first, last)
    requires MayTransfer(d.Image(), d.view, blockno, 0, n, curblock, first, last)
    requires data != null ==> data.Length >= endpos - pos
    requires !write ==> data != null
    requires write ==> src == SourceOf(data)
    modifies d.data, data
    ensures d.Valid() && DataStart(d.Image()) == DataStart(old(d.Image()))
    ensures result == Overlap(curblock, curblock + 1, pos, endpos)
    ensures Moved(write, old(d.Image()), d.Image(), d.view, blockno, 0, n, curblock, pos, endpos, src,
                  old(BytesIn(data)), BytesIn(data))
  {
    ghost var img0, v := d.Image(), d.view;
    assert Sole(v.free, Leaf(blockno), DataStart(img0), |img0|, blockno);
    if write {
      result := WriteBlock(d, blockno, curblock, pos, endpos, data, src, first, last);
      WrittenLeafTree(img0, d.Image(), v, blockno, n, curblock, pos, endpos, src);
    } else {
      result := ReadBlock(d, blockno, curblock, pos, endpos, data, first, last);
    }
  }

  lemma {:induction false} WrittenLeafTree(before: Image, after: Image, v: View, p: int, n: int, curblock: int,
                                           pos: int, endpos: int, src: Source)
    requires Mounted(after, v) && n <= 1 && 0 < DataStart(before) <= p < |before| && |after| == |before| && p != EOF
    requires LeafWritten(before, after, p, curblock, pos, endpos, src)
    requires forall x :: 0 <= x < |before| && x != p ==> after[x] == before[x]
    ensures WriteResult(before, after, v, p, 0, n, curblock, pos, endpos, src)
  {
  }
}
