// The loops of inode_write and inode_read over the slots of an inode.

module SlotTransfer {
  import opened Geometry
  import opened Blocks
  import opened Trees
  import opened FreeLists
  import opened IndirectTransfer
  import opened Files

  // ----- one slot -----

  /** What a file's own blocks are known to be. */
  ghost predicate OwnBlocks(free: set<int>, ts: seq<Tree>, lo: int, hi: int) {
    && 0 < lo
    && (forall x :: In(free, x) + CountAll(ts, x) <= 1)
    && (forall x :: CountAll(ts, x) > 0 ==> lo <= x < hi)
  }

  lemma {:induction false} OwnBlocksOf(free: set<int>, b: int, ts: seq<Tree>, lo: int, hi: int)
    requires Clean(free, Node(b, ts), lo, hi) && 0 < lo
    ensures OwnBlocks(free, ts, lo, hi) && CountAll(ts, b) == 0 && lo <= b < hi && b !in free
  {
    forall x
      ensures In(free, x) + CountAll(ts, x) <= 1
      ensures CountAll(ts, x) > 0 ==> lo <= x < hi
    {
      assert Sole(free, Node(b, ts), lo, hi, x);
    }
    assert Sole(free, Node(b, ts), lo, hi, b);
  }

  /** The slot to go on with at offset `cur` of the range from `pos` to `endpos`: it is the one
      after the last, and the transfer there ends with the slot or with the range. */
  lemma {:induction false} NextRange(n: int, pos: int, endpos: int, cur: int, last: int, k: int, s: int)
    requires 0 <= pos <= cur < endpos <= Offset(n) && 0 <= n <= UNREACHABLE && -1 <= last < SLOTS
    requires cur == pos || (last >= 0 && cur == Offset(Base(last + 1)))
    requires k == BlockOf(cur) && s == SlotOf(k)
    ensures 0 <= k < n && 0 <= s < SLOTS && Base(s) <= k < Base(s + 1)
    ensures last >= 0 && cur == Offset(Base(last + 1)) ==> last + 1 == s
    ensures Offset(Base(s)) <= cur < Offset(Base(s + 1)) && (cur == pos || cur == Offset(Base(s)))
  {
    InBlock(cur);
    if n <= k {
      OffsetMono(n, k);
    }
    SlotHolds(k);
    OffsetMono(Base(s), k);
    OffsetMono(k + 1, Base(s + 1));
    if last >= 0 && cur == Offset(Base(last + 1)) {
      SlotStartsAt(last + 1, cur, n);
    }
  }

  lemma {:induction false} SlotStartsAt(t: int, cur: nat, n: int)
    requires 0 <= t <= SLOTS && cur == Offset(Base(t)) && cur < Offset(n) && 0 <= n <= UNREACHABLE
    ensures t < SLOTS && SlotOf(BlockOf(cur)) == t
  {
    OffsetMono(n, UNREACHABLE);
    if t < SLOTS {
      SlotEnds(t);
      assert Offset(Base(t) + 1) == Offset(Base(t)) + BLOCKSIZE;
      BlockIs(cur, Base(t));
      SlotUnique(Base(t), t);
    }
  }

  /** What the transfer moves, and where it ends. */
  lemma {:induction false} RangeMoved(pos: int, endpos: int, cur: int, from: int, to: int)
    requires 0 <= pos <= cur < endpos && Offset(from) <= cur < Offset(to) && (cur == pos || cur == Offset(from))
    ensures cur + Overlap(from, to, pos, endpos) == if endpos <= Offset(to) then endpos else Offset(to)
  {
  }

  /** The recursive transfer may be called on slot `s`. */
  lemma {:induction false} SlotReady(img: Image, v: View, blocks: seq<int>, ts: seq<Tree>, n: int, pos: int,
                                     endpos: int, cur: int, s: int, first: int, last: int)
    requires Mounted(img, v) && ts == Slots(img, blocks) && FileShape(ts, n)
    requires OwnBlocks(v.free, ts, DataStart(img), |img|)
    requires 0 <= s < SLOTS && 0 <= n <= UNREACHABLE && 0 <= pos <= cur < endpos <= Offset(n)
    requires Offset(Base(s)) <= cur < Offset(Base(s + 1))
    requires first == BlockOf(pos) && last == BlockOf(endpos - 1)
    ensures MayTransfer(img, v, blocks[s], Level(s), SlotShare(n, s), Base(s), first, last)
    ensures RangeBlocks(pos, endpos, first, last)
  {
    SlotEnds(s);
    ShapeOf(ts, n, s);
    SlotRange(n, pos, endpos, cur, Base(s), Base(s + 1), first, last);
    ShareCovers(n, s, last);
    forall x ensures Sole(v.free, ts[s], DataStart(img), |img|, x) {
      CountMember(ts, s, x);
      FreeInData(img, v, x);
    }
  }

  /** ... and says how far it gets. */
  lemma {:induction false} SlotPlanned(img: Image, v: View, blocks: seq<int>, ts: seq<Tree>, n: int, pos: int,
                                       endpos: int, cur: int, s: int, level: nat, curblock: int, share: int, first: int,
                                       last: int)
    requires Mounted(img, v) && ts == Slots(img, blocks) && FileShape(ts, n)
    requires OwnBlocks(v.free, ts, DataStart(img), |img|)
    requires 0 <= s < SLOTS && 0 <= n <= UNREACHABLE && 0 <= pos <= cur < endpos <= Offset(n)
    requires Offset(Base(s)) <= cur < Offset(Base(s + 1)) && (cur == pos || cur == Offset(Base(s)))
    requires level == Level(s) && curblock == Base(s) && share == SlotShare(n, s)
    requires first == BlockOf(pos) && last == BlockOf(endpos - 1)
    ensures MayTransfer(img, v, blocks[s], level, share, curblock, first, last) && RangeBlocks(pos, endpos, first, last)
    ensures cur + Overlap(curblock, curblock + IndirectCount(level), pos, endpos)
         == if endpos <= Offset(Base(s + 1)) then endpos else Offset(Base(s + 1))
  {
    SlotReady(img, v, blocks, ts, n, pos, endpos, cur, s, first, last);
    SlotEnds(s);
    RangeMoved(pos, endpos, cur, Base(s), Base(s + 1));
  }

  lemma {:induction false} ShareCovers(n: int, s: int, last: int)
    requires last + 1 <= n
    ensures Within(last + 1 - Base(s), IndirectCount(Level(s))) <= SlotShare(n, s)
  {
  }

  lemma {:induction false} SlotRange(n: int, pos: int, endpos: int, cur: int, from: int, to: int, first: int, last: int)
    requires 0 <= n && 0 <= pos <= cur < endpos <= Offset(n) && 0 <= from <= to && Offset(from) <= cur < Offset(to)
    requires first == BlockOf(pos) && last == BlockOf(endpos - 1)
    ensures RangeBlocks(pos, endpos, first, last) && from <= last && first < to && last + 1 <= n
  {
    InBlock(pos);
    InBlock(endpos - 1);
    OffsetOrder(from, last + 1);
    OffsetOrder(first, to);
    OffsetOrder(last, n);
    OffsetOrder(first, last + 1);
  }

  lemma {:induction false} OffsetOrder(i: nat, j: nat)
    requires Offset(i) < Offset(j)
    ensures i < j
  {
    if j <= i {
      OffsetMono(j, i);
    }
  }

  // ----- writing -----

  /** Byte `o` after the part of a range that lies below slot `s` has been written. */
  ghost predicate ByteStep(before: Image, after: Image, ts: seq<Tree>, s: int, pos: int, endpos: int, src: Source,
                           o: nat) {
    FileByte(after, ts, o) ==
      if SlotOf(BlockOf(o)) == s && pos <= o < endpos then ByteAt(src, o - pos) else FileByte(before, ts, o)
  }

  lemma {:induction false} LeafWrittenAt(before: Image, after: Image, t: Tree, level: nat, n: int, curblock: int,
                                         pos: int, endpos: int, src: Source, k: int, g: int)
    requires LeavesWritten(before, after, t, level, n, curblock, pos, endpos, src) && 0 <= k < n && g == curblock + k
    ensures LeafWritten(before, after, LeafAt(t, level, k), g, pos, endpos, src)
  {
  }

  lemma {:induction false} SlotBytes(before: Image, after: Image, free: set<int>, lo: int, ts: seq<Tree>, n: int,
                                     s: int, pos: int, endpos: int, src: Source, o: nat)
    requires |after| == |before| && FileShape(ts, n) && 0 <= n <= UNREACHABLE && 0 <= s < SLOTS && o < Offset(n)
    requires OwnBlocks(free, ts, lo, |before|) && OnlyTree(before, after, ts[s])
    requires LeavesWritten(before, after, ts[s], Level(s), SlotShare(n, s), Base(s), pos, endpos, src)
    ensures ByteStep(before, after, ts, s, pos, endpos, src, o)
  {
    var k := BlockOf(o);
    InBlock(o);
    if n <= k {
      OffsetMono(n, k);
    }
    LeafOfMember(ts, n, k);
    ShareHoldsSlot(n, k, SlotOf(k));
    if SlotOf(k) == s {
      LeafWrittenAt(before, after, ts[s], Level(s), SlotShare(n, s), Base(s), pos, endpos, src, InSlot(k, s), k);
    } else {
      OtherSlotKept(before, after, free, lo, ts, n, s, k, SlotOf(k));
    }
  }

  lemma {:induction false} OtherSlotKept(before: Image, after: Image, free: set<int>, lo: int, ts: seq<Tree>, n: int,
                                         s: int, k: int, t: int)
    requires |after| == |before| && FileShape(ts, n) && 0 <= k < n <= UNREACHABLE && 0 <= s < SLOTS && t == SlotOf(k)
    requires t != s
    requires OwnBlocks(free, ts, lo, |before|) && OnlyTree(before, after, ts[s])
    ensures 0 <= LeafIn(ts, t, k) < |before| && after[LeafIn(ts, t, k)] == before[LeafIn(ts, t, k)]
  {
    ShareHoldsSlot(n, k, t);
    ShapeOf(ts, n, t);
    var x := LeafIn(ts, t, k);
    LeafAtMember(ts[t], Level(t), SlotShare(n, t), InSlot(k, t));
    CountPair(ts, s, t, x);
    assert CountAll(ts, x) > 0;
  }

  /** Byte `o` when the range from `pos`, zeros as far as `z` and then data, has been written up
      to `cur`. */
  ghost predicate ByteDone(before: Image, after: Image, ts: seq<Tree>, pos: int, z: int, src: Source, cur: int,
                           o: nat) {
    FileByte(after, ts, o) ==
      if pos <= o < cur then (if o < z then 0 else ByteAt(src, o - z)) else FileByte(before, ts, o)
  }

  ghost predicate BytesDone(before: Image, after: Image, ts: seq<Tree>, n: int, pos: int, z: int, src: Source,
                            cur: int) {
    forall o: nat :: o < Offset(n) ==> ByteDone(before, after, ts, pos, z, src, cur, o)
  }

  /** The file is being written: `cur` has been reached. */
  ghost predicate WritingFile(before: Image, after: Image, blocks: seq<int>, ts: seq<Tree>, n: int, pos: int, z: int,
                              src: Source, cur: int) {
    && |after| == |before| && DataStart(after) == DataStart(before) && |blocks| == SLOTS
    && Slots(after, blocks) == ts
    && (forall x {:trigger after[x]} {:trigger before[x]} :: 0 <= x < |before| && CountAll(ts, x) == 0 ==>
      after[x] == before[x])
    && forall u :: Look(u) ==> BytesDone(before, after, ts, n, pos, z, src, cur)
  }

  lemma {:induction false} SlotBytesDone(before: Image, img: Image, img': Image, ts: seq<Tree>, s: int, pos: int,
                                         z: int, data: Source, rpos: int, rend: int, src: Source, cur: int, cur': int,
                                         o: nat)
    requires ByteDone(before, img, ts, pos, z, data, cur, o) && ByteStep(img, img', ts, s, rpos, rend, src, o)
    requires 0 <= pos <= z && rpos <= cur < cur' <= rend && 0 <= s < SLOTS
    requires rpos == (if cur < z then pos else z) && src == (if cur < z then Zeros else data) && (cur < z ==> rend == z)
    requires cur == rpos || cur == Offset(Base(s))
    requires Offset(Base(s)) <= cur && cur' == if rend <= Offset(Base(s + 1)) then rend else Offset(Base(s + 1))
    ensures ByteDone(before, img', ts, pos, z, data, cur', o)
  {
    SlotOfByte(o, s);
  }

  /** The bytes below slot `s`. */
  lemma {:induction false} SlotOfByte(o: nat, s: int)
    requires 0 <= s < SLOTS
    ensures SlotOf(BlockOf(o)) == s <==> Offset(Base(s)) <= o < Offset(Base(s + 1))
  {
    var k := BlockOf(o);
    InBlock(o);
    SlotEnds(s);
    if Base(s) <= k < Base(s + 1) {
      SlotUnique(k, s);
      OffsetMono(Base(s), k);
      OffsetMono(k + 1, Base(s + 1));
    } else if k < Base(s) {
      OffsetMono(k + 1, Base(s));
      SlotNot(k, s);
    } else {
      OffsetMono(Base(s + 1), k);
      SlotNot(k, s);
    }
  }

  lemma {:induction false} SlotNot(k: int, s: int)
    requires 0 <= s < SLOTS && 0 <= k && !(Base(s) <= k < Base(s + 1))
    ensures SlotOf(k) != s
  {
    if k < UNREACHABLE {
      SlotHolds(k);
    }
  }

  lemma {:induction false} WriteSlotStep(before: Image, img: Image, img': Image, v: View, blocks: seq<int>,
                                         ts: seq<Tree>, n: int, s: int, pos: int, z: int, data: Source, rpos: int,
                                         rend: int, src: Source, cur: int, cur': int)
    requires WritingFile(before, img, blocks, ts, n, pos, z, data, cur) && FileShape(ts, n) && 0 <= n <= UNREACHABLE
    requires OwnBlocks(v.free, ts, DataStart(before), |before|) && 0 <= s < SLOTS
    requires WriteResult(img, img', v, blocks[s], Level(s), SlotShare(n, s), Base(s), rpos, rend, src)
    requires 0 <= pos <= z && rpos <= cur < cur' <= rend
    requires rpos == (if cur < z then pos else z) && src == (if cur < z then Zeros else data) && (cur < z ==> rend == z)
    requires cur == rpos || cur == Offset(Base(s))
    requires Offset(Base(s)) <= cur && cur' == if rend <= Offset(Base(s + 1)) then rend else Offset(Base(s + 1))
    ensures WritingFile(before, img', blocks, ts, n, pos, z, data, cur')
  {
    WriteResultMeans(img, img', v, blocks[s], Level(s), SlotShare(n, s), Base(s), rpos, rend, src);
    WritingMeans(before, img, blocks, ts, n, pos, z, data, cur);
    assert TreeOf(img, blocks[s], Level(s)) == ts[s];
    OtherSlots(img, img', blocks, ts, s);
    forall o: nat | o < Offset(n) ensures ByteDone(before, img', ts, pos, z, data, cur', o) {
      SlotBytes(img, img', v.free, DataStart(before), ts, n, s, rpos, rend, src, o);
      assert ByteDone(before, img, ts, pos, z, data, cur, o);
      SlotBytesDone(before, img, img', ts, s, pos, z, data, rpos, rend, src, cur, cur', o);
    }
    forall x | 0 <= x < |before| && CountAll(ts, x) == 0 ensures img'[x] == before[x] {
      CountMember(ts, s, x);
    }
  }

  lemma {:induction false} WritingMeans(before: Image, after: Image, blocks: seq<int>, ts: seq<Tree>, n: int, pos: int,
                                        z: int, src: Source, cur: int)
    requires WritingFile(before, after, blocks, ts, n, pos, z, src, cur)
    ensures BytesDone(before, after, ts, n, pos, z, src, cur)
  {
    assert Look(0);
  }

  lemma {:induction false} WriteResultMeans(before: Image, after: Image, v: View, p: int, level: nat, n: int,
                                            curblock: int, pos: int, endpos: int, src: Source)
    requires WriteResult(before, after, v, p, level, n, curblock, pos, endpos, src)
    ensures TreeOf(after, p, level) == TreeOf(before, p, level)
    ensures OnlyTree(before, after, TreeOf(before, p, level))
    ensures LeavesWritten(before, after, TreeOf(before, p, level), level, n, curblock, pos, endpos, src)
  {
    assert Look(0);
  }

  /** Writing below slot `s` moves no pointer. */
  lemma {:induction false} OtherSlots(before: Image, after: Image, blocks: seq<int>, ts: seq<Tree>, s: int)
    requires |blocks| == SLOTS && ts == Slots(before, blocks) && 0 <= s < SLOTS
    requires OnlyTree(before, after, ts[s]) && TreeOf(after, blocks[s], Level(s)) == ts[s]
    requires forall x :: CountAll(ts, x) <= 1
    ensures Slots(after, blocks) == ts
  {
    forall t | 0 <= t < SLOTS && t != s ensures TreeOf(after, blocks[t], Level(t)) == ts[t] {
      forall x | 0 <= x < |before| && Count(ts[t], x) > 0 ensures after[x] == before[x] {
        CountPair(ts, s, t, x);
      }
      TreeFrame(before, after, blocks[t], Level(t));
    }
  }

  /** Writes zeros from `pos` to `z` and then `data` up to `endpos`, into blocks the file has. */
  method WriteSlots(d: Disk, blocks: seq<int>, pos: int, z: int, endpos: int, data: array?<Byte>, ghost n: int,
                    ghost ts: seq<Tree>)
    returns (curpos: int)
    requires d.Valid() && |blocks| == SLOTS && ts == Slots(d.Image(), blocks) && FileShape(ts, n)
    requires OwnBlocks(d.view.free, ts, DataStart(d.Image()), |d.Image()|)
    requires 0 <= pos <= z <= endpos <= Offset(n) && 0 <= n <= UNREACHABLE
    requires data != null ==> data.Length >= endpos - z
    modifies d.data, data
    ensures d.Valid() && curpos == endpos && BytesIn(data) == old(BytesIn(data))
    ensures WritingFile(old(d.Image()), d.Image(), blocks, ts, n, pos, z, old(SourceOf(data)), endpos)
  {
    ghost var img0, src := d.Image(), SourceOf(data);
    curpos := pos;
    var lastSlot := -1;
    while curpos < endpos
      invariant d.Valid() && SourceOf(data) == src && BytesIn(data) == old(BytesIn(data))
      invariant |d.Image()| == |img0| && DataStart(d.Image()) == DataStart(img0)
      invariant pos <= curpos <= endpos && -1 <= lastSlot < SLOTS && (lastSlot == -1 <==> curpos == pos)
      invariant curpos == pos || curpos == z || curpos == endpos || curpos == Offset(Base(lastSlot + 1))
      invariant WritingFile(img0, d.Image(), blocks, ts, n, pos, z, src, curpos)
    {
      lastSlot, curpos := WriteNext(d, blocks, pos, z, endpos, data, n, ts, lastSlot, curpos, img0, src);
    }
  }

  /** One round of the loop. */
  method WriteNext(d: Disk, blocks: seq<int>, pos: int, z: int, endpos: int, data: array?<Byte>, ghost n: int,
                   ghost ts: seq<Tree>, lastSlot: int, curpos: int, ghost img0: Image, ghost src: Source)
    returns (slot: int, next: int)
    requires d.Valid() && |blocks| == SLOTS && FileShape(ts, n) && src == SourceOf(data)
    requires OwnBlocks(d.view.free, ts, DataStart(img0), |img0|)
    requires 0 <= pos <= z <= endpos <= Offset(n) && 0 <= n <= UNREACHABLE
    requires data != null ==> data.Length >= endpos - z
    requires pos <= curpos < endpos && -1 <= lastSlot < SLOTS && (lastSlot == -1 <==> curpos == pos)
    requires curpos == pos || curpos == z || curpos == Offset(Base(lastSlot + 1))
    requires |d.Image()| == |img0| && DataStart(d.Image()) == DataStart(img0)
    requires WritingFile(img0, d.Image(), blocks, ts, n, pos, z, src, curpos)
    modifies d.data, data
    ensures d.Valid() && BytesIn(data) == old(BytesIn(data)) && SourceOf(data) == src
    ensures |d.Image()| == |img0| && DataStart(d.Image()) == DataStart(img0)
    ensures curpos < next <= endpos && 0 <= slot < SLOTS
    ensures next == z || next == endpos || next == Offset(Base(slot + 1))
    ensures WritingFile(img0, d.Image(), blocks, ts, n, pos, z, src, next)
  {
    ghost var img := d.Image();
    var k := OffsetToBlock(curpos);
    ghost var rpos, rend := if curpos < z then pos else z, if curpos < z then z else endpos;
    OffsetMono(n, UNREACHABLE);
    NextRange(n, rpos, rend, curpos, lastSlot, k, SlotOf(k));
    var indirection, curblock;
    indirection, slot, curblock := Locate(k);
    assert lastSlot == -1 || curpos == z || lastSlot + 1 == slot;
    var moved;
    if curpos < z {
      moved := WriteSlot(d, blocks, slot, curblock, indirection, pos, z, null, n, ts, curpos, Zeros);
    } else {
      moved := WriteSlot(d, blocks, slot, curblock, indirection, z, endpos, data, n, ts, curpos, src);
    }
    next := curpos + moved;
    WriteSlotStep(img0, img, d.Image(), d.view, blocks, ts, n, slot, pos, z, src, rpos, rend,
                  if curpos < z then Zeros else src, curpos, next);
  }

  method WriteSlot(d: Disk, blocks: seq<int>, slot: nat, curblock: int, indirection: nat, pos: int, endpos: int,
                   data: array?<Byte>, ghost n: int, ghost ts: seq<Tree>, ghost cur: int, ghost src: Source)
    returns (moved: int)
    requires d.Valid() && |blocks| == SLOTS && ts == Slots(d.Image(), blocks) && FileShape(ts, n)
    requires OwnBlocks(d.view.free, ts, DataStart(d.Image()), |d.Image()|)
    requires 0 <= pos <= cur < endpos <= Offset(n) && 0 <= n <= UNREACHABLE && slot < SLOTS && curblock == Base(slot)
    requires indirection == Level(slot)
    requires Offset(Base(slot)) <= cur < Offset(Base(slot + 1)) && (cur == pos || cur == Offset(Base(slot)))
    requires src == SourceOf(data) && (data != null ==> data.Length >= endpos - pos)
    modifies d.data, data
    ensures d.Valid() && BytesIn(data) == old(BytesIn(data))
    ensures cur + moved == if endpos <= Offset(Base(slot + 1)) then endpos else Offset(Base(slot + 1))
    ensures WriteResult(old(d.Image()), d.Image(), d.view, blocks[slot], Level(slot), SlotShare(n, slot), Base(slot),
                        pos, endpos, src)
  {
    ghost var first, last, share := BlockOf(pos), BlockOf(endpos - 1), SlotShare(n, slot);
    SlotPlanned(d.Image(), d.view, blocks, ts, n, pos, endpos, cur, slot, indirection, curblock, share, first, last);
    moved := IndirectReadWrite(d, blocks[slot], curblock, indirection, pos, endpos, data, true, share, src, first,
                               last);
  }

  // ----- reading -----

  /** Byte `o`, if it has been reached, is in the buffer. */
  ghost predicate ByteGot(img: Image, ts: seq<Tree>, pos: int, cur: int, data: seq<Byte>, o: nat) {
    pos <= o < cur && o - pos < |data| ==> data[o - pos] == FileByte(img, ts, o)
  }

  /** The file has been read up to `cur`; the rest of the buffer is as it was. */
  ghost predicate ReadingFile(img: Image, ts: seq<Tree>, pos: int, was: seq<Byte>, data: seq<Byte>, cur: int) {
    && |data| == |was|
    && (forall q :: 0 <= q < |was| && pos + q >= cur ==> data[q] == was[q])
    && forall o: nat :: ByteGot(img, ts, pos, cur, data, o)
  }

  lemma {:induction false} ReadResultMeans(img: Image, p: int, level: nat, n: int, curblock: int, pos: int, endpos: int,
                                           was: seq<Byte>, data: seq<Byte>)
    requires ReadResult(img, p, level, n, curblock, pos, endpos, was, data)
    ensures LeavesRead(img, TreeOf(img, p, level), level, n, curblock, pos, endpos, data)
  {
    assert Look(0);
  }

  lemma {:induction false} LeafReadAt(img: Image, t: Tree, level: nat, n: int, curblock: int, pos: int, endpos: int,
                                      data: seq<Byte>, k: int, g: int)
    requires LeavesRead(img, t, level, n, curblock, pos, endpos, data) && 0 <= k < n && g == curblock + k
    ensures LeafRead(img, LeafAt(t, level, k), g, pos, endpos, data)
  {
  }

  /** A byte below slot `s`. */
  lemma {:induction false} ByteOfSlot(img: Image, ts: seq<Tree>, lo: int, n: int, s: int, pos: int, endpos: int,
                                      data: seq<Byte>, o: nat)
    requires FileShape(ts, n) && 0 <= n <= UNREACHABLE && 0 <= s < SLOTS
    requires forall x :: CountAll(ts, x) > 0 ==> lo <= x < |img|
    requires lo >= 0 && LeavesRead(img, ts[s], Level(s), SlotShare(n, s), Base(s), pos, endpos, data)
    requires o < Offset(n) && pos <= o < endpos && Offset(Base(s)) <= o < Offset(Base(s + 1)) && o - pos < |data|
    ensures data[o - pos] == FileByte(img, ts, o)
  {
    var k := BlockOf(o);
    InBlock(o);
    if n <= k {
      OffsetMono(n, k);
    }
    SlotOfByte(o, s);
    ShareHoldsSlot(n, k, s);
    LeafOfMember(ts, n, k);
    LeafReadAt(img, ts[s], Level(s), SlotShare(n, s), Base(s), pos, endpos, data, InSlot(k, s), k);
    assert ByteRead(img, LeafIn(ts, s, k), k, pos, endpos, data, o - Offset(k));
  }

  lemma {:induction false} ReadSlotStep(img: Image, blocks: seq<int>, ts: seq<Tree>, lo: int, n: int, s: int, pos: int,
                                        endpos: int, was: seq<Byte>, data: seq<Byte>, data': seq<Byte>, cur: int,
                                        cur': int)
    requires ReadingFile(img, ts, pos, was, data, cur) && FileShape(ts, n) && 0 <= n <= UNREACHABLE
    requires |blocks| == SLOTS && ts == Slots(img, blocks) && 0 <= s < SLOTS
    requires lo >= 0 && forall x :: CountAll(ts, x) > 0 ==> lo <= x < |img|
    requires ReadResult(img, blocks[s], Level(s), SlotShare(n, s), Base(s), pos, endpos, data, data')
    requires 0 <= pos <= cur < cur' <= endpos <= Offset(n) && (cur == pos || cur == Offset(Base(s)))
    requires Offset(Base(s)) <= cur && cur' == if endpos <= Offset(Base(s + 1)) then endpos else Offset(Base(s + 1))
    ensures ReadingFile(img, ts, pos, was, data', cur')
  {
    SlotEnds(s);
    ReadResultMeans(img, blocks[s], Level(s), SlotShare(n, s), Base(s), pos, endpos, data, data');
    assert BufferKept(data, data', pos, endpos, Base(s), Base(s + 1));
    forall o: nat ensures ByteGot(img, ts, pos, cur', data', o) {
      if pos <= o < cur' && o - pos < |data'| {
        if o < cur {
          assert ByteGot(img, ts, pos, cur, data, o);
        } else {
          ByteOfSlot(img, ts, lo, n, s, pos, endpos, data', o);
        }
      }
    }
  }

  /** Reads `pos` to `endpos`, from blocks the file has. */
  method ReadSlots(d: Disk, blocks: seq<int>, pos: int, endpos: int, data: array<Byte>, ghost n: int,
                   ghost ts: seq<Tree>)
    returns (curpos: int)
    requires d.Valid() && |blocks| == SLOTS && ts == Slots(d.Image(), blocks) && FileShape(ts, n)
    requires OwnBlocks(d.view.free, ts, DataStart(d.Image()), |d.Image()|)
    requires 0 <= pos < endpos <= Offset(n) && 0 <= n <= UNREACHABLE && data.Length >= endpos - pos
    modifies d.data, data
    ensures d.Valid() && curpos == endpos && d.Image() == old(d.Image())
    ensures ReadingFile(d.Image(), ts, pos, old(data[..]), data[..], endpos)
  {
    ghost var img0, was := d.Image(), data[..];
    curpos := pos;
    var lastSlot := -1;
    while curpos < endpos
      invariant d.Valid() && d.Image() == img0
      invariant pos <= curpos <= endpos && -1 <= lastSlot < SLOTS && (lastSlot == -1 ==> curpos == pos)
      invariant curpos == endpos || (lastSlot == -1) || curpos == Offset(Base(lastSlot + 1))
      invariant ReadingFile(img0, ts, pos, was, data[..], curpos)
    {
      ghost var last, cur, buffer := lastSlot, curpos, data[..];
      var k := OffsetToBlock(curpos);
      OffsetMono(n, UNREACHABLE);
      NextRange(n, pos, endpos, cur, last, k, SlotOf(k));
      var indirection, slot, curblock := Locate(k);
      assert lastSlot == -1 || lastSlot + 1 == slot;
      lastSlot := slot;
      var moved := ReadSlot(d, blocks, slot, curblock, indirection, pos, endpos, data, n, ts, curpos);
      curpos := curpos + moved;
      ReadSlotStep(img0, blocks, ts, DataStart(img0), n, slot, pos, endpos, was, buffer, data[..], cur, curpos);
    }
  }

  method ReadSlot(d: Disk, blocks: seq<int>, slot: nat, curblock: int, indirection: nat, pos: int, endpos: int,
                  data: array<Byte>, ghost n: int, ghost ts: seq<Tree>, ghost cur: int)
    returns (moved: int)
    requires d.Valid() && |blocks| == SLOTS && ts == Slots(d.Image(), blocks) && FileShape(ts, n)
    requires OwnBlocks(d.view.free, ts, DataStart(d.Image()), |d.Image()|)
    requires 0 <= pos <= cur < endpos <= Offset(n) && 0 <= n <= UNREACHABLE && slot < SLOTS && curblock == Base(slot)
    requires indirection == Level(slot)
    requires Offset(Base(slot)) <= cur < Offset(Base(slot + 1)) && (cur == pos || cur == Offset(Base(slot)))
    requires data.Length >= endpos - pos
    modifies d.data, data
    ensures d.Valid() && d.Image() == old(d.Image())
    ensures cur + moved == if endpos <= Offset(Base(slot + 1)) then endpos else Offset(Base(slot + 1))
    ensures ReadResult(d.Image(), blocks[slot], Level(slot), SlotShare(n, slot), Base(slot), pos, endpos, old(data[..]),
                       data[..])
  {
    ghost var first, last, share := BlockOf(pos), BlockOf(endpos - 1), SlotShare(n, slot);
    SlotPlanned(d.Image(), d.view, blocks, ts, n, pos, endpos, cur, slot, indirection, curblock, share, first, last);
    moved := IndirectReadWrite(d, blocks[slot], curblock, indirection, pos, endpos, data, false, share, Zeros, first,
                               last);
  }
}
