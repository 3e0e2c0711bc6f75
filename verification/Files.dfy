// What an inode holds: the trees below its slots, its bytes, and the file system as a
// sequence of such files, one for each inode number.

module Files {
  import opened Geometry
  import opened Blocks
  import opened Trees
  import opened FreeLists
  import opened IndirectGrow

  /** Pointer slots of an inode. */
  const SLOTS: nat := DIRECT + 3

  // ----- the slots, seen as consecutive spans of the file -----

  /** Indirection level of a slot. */
  function Level(s: int): (level: nat)
    ensures level <= 3
  {
    if s < DIRECT then 0 else if s == DIRECT then 1 else if s == DIRECT + 1 then 2 else 3
  }

  /** Data blocks below the slots before `s`. */
  ghost function Total(s: int): (k: nat)
    ensures s >= 0 ==> k >= s
  {
    if s <= 0 then 0 else Total(s - 1) + IndirectCount(Level(s - 1))
  }

  ghost predicate IsTotal(s: int, k: int) {
    forall u :: Look(u) ==> k == Total(s)
  }

  /** The first data block below slot `s`. */
  ghost function Base(s: int): nat {
    assert IsTotal(s, Total(s));
    var k: nat :| IsTotal(s, k);
    k
  }

  lemma {:induction false} BaseNext(s: int)
    requires 0 <= s
    ensures Base(0) == 0
    ensures Base(s + 1) == Base(s) + IndirectCount(Level(s))
  {
    assert Look(0);
    assert IsTotal(0, Base(0)) && IsTotal(s, Base(s)) && IsTotal(s + 1, Base(s + 1));
  }

  /** First block index that no slot reaches. */
  ghost const UNREACHABLE: nat := Base(SLOTS)

  /** The slot, up to `s`, that data block `k` lies under. */
  ghost function SlotFrom(k: int, s: nat): (r: nat)
    ensures r <= s
  {
    if s == 0 || Base(s) <= k then s else SlotFrom(k, s - 1)
  }

  ghost function SlotOf(k: int): nat {
    SlotFrom(k, SLOTS)
  }

  lemma {:induction false} SlotFromIs(k: int, s: nat)
    requires 0 <= k < Base(s + 1)
    ensures Base(SlotFrom(k, s)) <= k < Base(SlotFrom(k, s) + 1)
  {
    BaseNext(0);
    if s > 0 && k < Base(s) {
      SlotFromIs(k, s - 1);
    }
  }

  lemma {:induction false} BaseOfDirect(s: int)
    requires 0 <= s <= DIRECT
    ensures Base(s) == s
  {
    BaseNext(0);
    if s > 0 {
      BaseNext(s - 1);
      BaseOfDirect(s - 1);
    }
  }

  lemma {:induction false} BaseOfIndirect()
    ensures Base(DIRECT) == FirstBlock(1) && Base(DIRECT + 1) == FirstBlock(2)
    ensures Base(DIRECT + 2) == FirstBlock(3) && UNREACHABLE == FirstBlock(4)
  {
    BaseOfDirect(DIRECT);
    BaseNext(DIRECT);
    BaseNext(DIRECT + 1);
    BaseNext(DIRECT + 2);
  }

  lemma {:induction false} BaseMono(s: int, t: int)
    requires 0 <= s <= t
    ensures Base(s) <= Base(t)
    ensures s < t ==> Base(s + 1) <= Base(t)
    decreases t
  {
    if s < t {
      BaseNext(t - 1);
      BaseMono(s, t - 1);
    }
  }

  lemma {:induction false} SlotHolds(k: int)
    requires 0 <= k < UNREACHABLE
    ensures 0 <= SlotOf(k) < SLOTS
    ensures Base(SlotOf(k)) <= k < Base(SlotOf(k) + 1) <= UNREACHABLE
  {
    SlotFromIs(k, SLOTS - 1);
    BaseMono(SlotOf(k) + 1, SLOTS);
  }

  lemma {:induction false} SlotUnique(k: int, s: int)
    requires 0 <= s < SLOTS && Base(s) <= k < Base(s + 1)
    ensures SlotOf(k) == s && k < UNREACHABLE
  {
    SlotEnds(s);
    SlotHolds(k);
    var t := SlotOf(k);
    if t < s {
      BaseMono(t + 1, s);
    } else if s < t {
      BaseMono(s + 1, t);
    }
  }

  lemma {:induction false} SlotEnds(s: int)
    requires 0 <= s < SLOTS
    ensures Base(s + 1) == Base(s) + IndirectCount(Level(s)) && Base(s + 1) <= UNREACHABLE
  {
    BaseNext(s);
    BaseMono(s + 1, SLOTS);
  }

  lemma {:induction false} ShareHoldsSlot(n: int, k: int, s: int)
    requires 0 <= k < n && s == SlotOf(k) && k < UNREACHABLE
    ensures 0 <= s < SLOTS && 0 <= k - Base(s) < SlotShare(n, s)
  {
    SlotHolds(k);
    SlotEnds(s);
  }

  /** The three conversions that every driver loop makes. */
  method Locate(block: int) returns (level: nat, slot: nat, first: int)
    requires 0 <= block < UNREACHABLE
    ensures slot == SlotOf(block) && slot < SLOTS && level == Level(slot)
    ensures first == Base(slot) <= block < Base(slot + 1) <= UNREACHABLE
    ensures Base(slot + 1) == first + IndirectCount(level)
  {
    level := IndirectionLevelOf(block);
    slot := BlockToSlot(SHIPPED, block);
    first := SlotToFirstBlock(SHIPPED, slot);
    SlotAt(block, level, slot, first);
  }

  method IndirectionLevelOf(block: int) returns (level: nat)
    requires 0 <= block < UNREACHABLE
    ensures level == IndirectionLevel(block)
  {
    BaseOfIndirect();
    level := IndirectionLevel(block);
  }

  lemma {:induction false} SlotAt(block: nat, level: int, slot: int, first: int)
    requires block < UNREACHABLE
    requires level == IndirectionLevel(block) && slot == BlockToSlot(SHIPPED, block)
    requires first == SlotToFirstBlock(SHIPPED, slot)
    ensures 0 <= slot < SLOTS && level == Level(slot) && slot == SlotOf(block)
    ensures first == Base(slot) <= block < Base(slot + 1) <= UNREACHABLE
    ensures Base(slot + 1) == first + IndirectCount(level)
  {
    BaseOfIndirect();
    UnitPlanBlock(block);
    UnitPlanFirst(slot);
    SlotEnds(slot);
    SlotUnique(block, slot);
  }

  lemma {:induction false} UnitPlanFirst(slot: nat)
    requires slot < SLOTS
    ensures SlotLevel(SHIPPED, slot) == Level(slot)
    ensures SlotToFirstBlock(SHIPPED, slot) == Base(slot)
  {
    BaseOfIndirect();
    if slot < DIRECT {
      BaseOfDirect(slot);
    } else {
      FirstOfLevel(SHIPPED, slot - DIRECT + 1, 0);
    }
  }

  // ----- sizes -----

  ghost const MAX_FILESIZE: nat := Offset(UNREACHABLE)

  lemma {:induction false} BlocksForIs(size: nat)
    ensures size <= Offset(BlocksFor(size))
    ensures BlocksFor(size) > 0 ==> Offset(BlocksFor(size) - 1) < size
    ensures size > 0 ==> BlocksFor(size) > 0
  {
    if size > 0 {
      InBlock(size - 1);
    }
  }

  lemma {:induction false} BlocksForUnique(size: nat, n: nat)
    requires size <= Offset(n) && (n > 0 ==> Offset(n - 1) < size)
    ensures BlocksFor(size) == n
  {
    var m := BlocksFor(size);
    BlocksForIs(size);
    if m < n {
      OffsetMono(m, n - 1);
    } else if n < m {
      OffsetMono(n, m - 1);
    }
  }

  lemma {:induction false} BlocksForWhole(n: nat)
    ensures BlocksFor(Offset(n)) == n
  {
    assert n > 0 ==> Offset(n) == Offset(n - 1) + BLOCKSIZE;
    BlocksForUnique(Offset(n), n);
  }

  lemma {:induction false} BlocksForMono(small: nat, large: nat)
    requires small <= large
    ensures BlocksFor(small) <= BlocksFor(large)
  {
    var m, n := BlocksFor(small), BlocksFor(large);
    BlocksForIs(small);
    BlocksForIs(large);
    if n < m {
      OffsetMono(n, m - 1);
    }
  }

  lemma {:induction false} BlocksForReachable(size: nat)
    requires size <= MAX_FILESIZE
    ensures BlocksFor(size) <= UNREACHABLE
  {
    BlocksForWithin(size, UNREACHABLE);
  }

  lemma {:induction false} BlocksForWithin(size: nat, n: nat)
    requires size <= Offset(n)
    ensures BlocksFor(size) <= n
  {
    BlocksForIs(size);
    if n < BlocksFor(size) {
      OffsetMono(n, BlocksFor(size) - 1);
    }
  }

  // ----- one file -----

  ghost function Slots(img: Image, blocks: seq<int>): (ts: seq<Tree>)
    ensures |ts| == |blocks|
  {
    seq(|blocks|, s requires 0 <= s < |blocks| => TreeOf(img, blocks[s], Level(s)))
  }

  /** All blocks of the file whose inode block is `b`, the inode block included. */
  ghost function FileTree(img: Image, b: int): Tree {
    if 0 <= b < |img| && img[b].InodeBlock? && |img[b].inode.blocks| == SLOTS
    then Node(b, Slots(img, img[b].inode.blocks)) else Leaf(b)
  }

  /** How many of the first `n` data blocks of a file lie below slot `s`. */
  ghost function SlotShare(n: int, s: int): (r: nat)
    ensures r <= IndirectCount(Level(s))
  {
    Within(n - Base(s), IndirectCount(Level(s)))
  }

  /** The slots hold exactly the first `n` data blocks. */
  ghost predicate FileShape(ts: seq<Tree>, n: int) {
    |ts| == SLOTS && forall u :: Look(u) ==> forall s :: 0 <= s < SLOTS ==> Shape(ts[s], Level(s), SlotShare(n, s))
  }

  ghost function LeafOf(ts: seq<Tree>, k: int): int {
    LeafIn(ts, SlotOf(k), k)
  }

  /** Data block `k` of a file, below slot `s`. */
  ghost function LeafIn(ts: seq<Tree>, s: int, k: int): int {
    if 0 <= s < |ts| then LeafAt(ts[s], Level(s), InSlot(k, s)) else EOF
  }

  /** Position of data block `k` below slot `s`. */
  ghost function InSlot(k: int, s: int): int {
    k - Base(s)
  }

  /** The byte at offset `o` of a file. */
  ghost function FileByte(img: Image, ts: seq<Tree>, o: nat): Byte {
    ByteIn(img, LeafOf(ts, BlockOf(o)), o - Offset(BlockOf(o)))
  }

  ghost function ByteIn(img: Image, x: int, r: int): Byte {
    if 0 <= x < |img| && 0 <= r < BLOCKSIZE then Bytes(img[x])[r] else 0
  }

  /** The inode of the file, and that its slots hold what its size calls for. */
  ghost predicate InodeOk(img: Image, b: int) {
    && DataStart(img) <= b < |img| && img[b].InodeBlock?
    && |img[b].inode.blocks| == SLOTS && img[b].inode.size <= MAX_FILESIZE
    && forall u :: Look(u) ==> FileShape(Slots(img, img[b].inode.blocks), BlocksFor(img[b].inode.size))
  }

  // ----- the file system -----

  datatype File = Missing | File(isDir: bool, nlinks: nat, data: seq<Byte>)

  ghost function Content(img: Image, ts: seq<Tree>, size: nat): (data: seq<Byte>)
    ensures |data| == size
  {
    seq(size, o requires 0 <= o < size => FileByte(img, ts, o))
  }

  ghost function FileOf(img: Image, b: int): File {
    if 0 <= b < |img| && img[b].InodeBlock? then
      var inode := img[b].inode;
      File(inode.isDir, inode.nlinks, Content(img, Slots(img, inode.blocks), inode.size))
    else Missing
  }

  /** What is stored, by inode number. */
  ghost function FilesOf(img: Image, entries: seq<int>): (fs: seq<File>)
    ensures |fs| == |entries|
  {
    seq(|entries|, j requires 0 <= j < |entries| => if entries[j] < 0 then Missing else FileOf(img, entries[j]))
  }

  ghost function TreesOf(img: Image, entries: seq<int>): (ts: seq<Tree>)
    ensures |ts| == |entries|
  {
    seq(|entries|, j requires 0 <= j < |entries| => if entries[j] < 0 then Nil else FileTree(img, entries[j]))
  }

  ghost predicate FileOk(img: Image, entries: seq<int>, j: int) {
    0 <= j < |entries| && entries[j] >= 0 ==> InodeOk(img, entries[j])
  }

  /** Every block of the data area is free, or one file's in one place; no other block is either. */
  ghost predicate Placed(img: Image, free: set<int>, ts: seq<Tree>, x: int) {
    In(free, x) + CountAll(ts, x) == if DataStart(img) <= x < |img| then 1 else 0
  }

  ghost predicate Partition(img: Image, free: set<int>, ts: seq<Tree>) {
    forall x :: Placed(img, free, ts, x)
  }

  ghost predicate FsOk(img: Image, v: View) {
    && Mounted(img, v) && v.held == {}
    && (forall j :: FileOk(img, v.entries, j))
    && forall u :: Look(u) ==> Partition(img, v.free, TreesOf(img, v.entries))
  }

  lemma {:induction false} ShapeOf(ts: seq<Tree>, n: int, s: int)
    requires FileShape(ts, n) && 0 <= s < SLOTS
    ensures Shape(ts[s], Level(s), SlotShare(n, s))
  {
    assert Look(0);
  }

  // ----- framing -----

  lemma {:induction false} LeafOfMember(ts: seq<Tree>, n: nat, k: int)
    requires FileShape(ts, n) && 0 <= k < n <= UNREACHABLE
    ensures CountAll(ts, LeafOf(ts, k)) > 0
  {
    var s := SlotOf(k);
    ShareHoldsSlot(n, k, s);
    ShapeOf(ts, n, s);
    LeafInSlot(ts, s, Level(s), SlotShare(n, s), InSlot(k, s));
  }

  lemma {:induction false} LeafInSlot(ts: seq<Tree>, s: nat, level: nat, n: int, r: int)
    requires s < |ts| && Shape(ts[s], level, n) && 0 <= r < n <= IndirectCount(level)
    ensures CountAll(ts, LeafAt(ts[s], level, r)) > 0
  {
    LeafAtMember(ts[s], level, n, r);
    CountMember(ts, s, LeafAt(ts[s], level, r));
  }

  /** The blocks of a file decide what it holds. */
  lemma {:induction false} FileFrame(before: Image, after: Image, b: int)
    requires |before| == |after| && InodeOk(before, b)
    requires forall x :: 0 <= x < |before| && Count(FileTree(before, b), x) > 0 ==> after[x] == before[x]
    ensures FileTree(after, b) == FileTree(before, b)
    ensures FileOf(after, b) == FileOf(before, b)
  {
    assert Look(0);
    var inode := before[b].inode;
    var ts := Slots(before, inode.blocks);
    assert Count(FileTree(before, b), b) > 0;
    SameSlotTrees(before, after, inode.blocks, ts);
    ContentFrame(before, after, ts, inode.size);
  }

  lemma {:induction false} SameSlotTrees(before: Image, after: Image, blocks: seq<int>, ts: seq<Tree>)
    requires |before| == |after| && |blocks| == SLOTS && ts == Slots(before, blocks)
    requires forall x :: 0 <= x < |before| && CountAll(ts, x) > 0 ==> after[x] == before[x]
    ensures Slots(after, blocks) == ts
  {
    forall s | 0 <= s < SLOTS ensures TreeOf(after, blocks[s], Level(s)) == ts[s] {
      forall x | 0 <= x < |before| && Count(ts[s], x) > 0 ensures after[x] == before[x] {
        CountMember(ts, s, x);
      }
      TreeFrame(before, after, blocks[s], Level(s));
    }
  }

  lemma {:induction false} ContentFrame(before: Image, after: Image, ts: seq<Tree>, size: nat)
    requires |before| == |after| && size <= MAX_FILESIZE && FileShape(ts, BlocksFor(size))
    requires forall x :: 0 <= x < |before| && CountAll(ts, x) > 0 ==> after[x] == before[x]
    ensures Content(after, ts, size) == Content(before, ts, size)
  {
    forall o | 0 <= o < size ensures FileByte(after, ts, o) == FileByte(before, ts, o) {
      ByteInFile(o, size);
      LeafOfMember(ts, BlocksFor(size), BlockOf(o));
    }
  }

  lemma {:induction false} ByteInFile(o: nat, size: nat)
    requires o < size <= MAX_FILESIZE
    ensures BlockOf(o) < BlocksFor(size) <= UNREACHABLE
  {
    var k, n := BlockOf(o), BlocksFor(size);
    BlocksForReachable(size);
    BlocksForIs(size);
    InBlock(o);
    if n <= k {
      OffsetMono(n, k);
    }
  }

  /** Writing below slot `i`, or in free blocks, leaves the other slots alone. */
  lemma {:induction false} SlotsFrame(before: Image, after: Image, blocks: seq<int>, ts: seq<Tree>, free: set<int>,
                                      lo: int, i: nat, p: int)
    requires i < |blocks| && lo > 0 && ts == Slots(before, blocks)
    requires forall x :: In(free, x) + CountAll(ts, x) <= 1
    requires forall x :: CountAll(ts, x) > 0 ==> lo <= x
    requires Same(before, after, free, ts[i])
    ensures Slots(after, blocks[i := p]) == ts[i := TreeOf(after, p, Level(i))]
  {
    forall j | 0 <= j < |blocks| && j != i ensures TreeOf(after, blocks[j], Level(j)) == ts[j] {
      forall x | 0 <= x < |before| && Count(ts[j], x) > 0 ensures after[x] == before[x] {
        CountPair(ts, i, j, x);
      }
      TreeFrame(before, after, blocks[j], Level(j));
    }
  }

  /** Rewriting the inode block leaves everything below it alone. */
  lemma {:induction false} InodeWritten(img: Image, img': Image, b: int, inode: Inode, ts: seq<Tree>)
    requires 0 <= b < |img| && img' == img[b := InodeBlock(inode)] && |inode.blocks| == SLOTS
    requires ts == Slots(img, inode.blocks) && CountAll(ts, b) == 0
    ensures Slots(img', inode.blocks) == ts && FileTree(img', b) == Node(b, ts)
  {
    forall s | 0 <= s < SLOTS ensures TreeOf(img', inode.blocks[s], Level(s)) == ts[s] {
      CountMember(ts, s, b);
      TreeFrame(img, img', inode.blocks[s], Level(s));
    }
  }

  /** What a sound file system gives one file. */
  lemma {:induction false} FileClean(img: Image, v: View, j: nat, b: int)
    requires FsOk(img, v) && j < |v.entries| && b == v.entries[j] >= 0
    ensures InodeOk(img, b) && b !in v.free
    ensures Clean(v.free, FileTree(img, b), DataStart(img), |img|)
  {
    assert Look(0);
    var trees := TreesOf(img, v.entries);
    assert FileOk(img, v.entries, j);
    forall x ensures Sole(v.free, FileTree(img, b), DataStart(img), |img|, x) {
      assert Placed(img, v.free, trees, x);
      CountMember(trees, j, x);
    }
    assert Sole(v.free, FileTree(img, b), DataStart(img), |img|, b);
  }

  /** A change to file `j`, to free blocks and to the lists does not reach another file. */
  lemma {:induction false} OtherFiles(before: Image, v: View, trees: seq<Tree>, after: Image, j: nat, entries: seq<int>)
    requires FsOk(before, v) && trees == TreesOf(before, v.entries) && |after| == |before|
    requires DataStart(after) == DataStart(before)
    requires j < |v.entries| && |entries| == |v.entries| && entries == v.entries[j := entries[j]]
    requires forall x :: DataStart(before) <= x < |before| && x !in v.free && Count(trees[j], x) == 0 ==>
      after[x] == before[x]
    ensures TreesOf(after, entries) == trees[j := if entries[j] < 0 then Nil else FileTree(after, entries[j])]
    ensures FilesOf(after, entries)
         == FilesOf(before, v.entries)[j := if entries[j] < 0 then Missing else FileOf(after, entries[j])]
    ensures forall i :: 0 <= i < |entries| && i != j ==> FileOk(after, entries, i)
  {
    PartitionHolds(before, v);
    forall i | 0 <= i < |entries| && i != j && entries[i] >= 0
      ensures FileTree(after, entries[i]) == trees[i] && FileOf(after, entries[i]) == FileOf(before, entries[i])
      ensures InodeOk(after, entries[i])
    {
      assert entries[i] == v.entries[i];
      assert FileOk(before, v.entries, i);
      forall x | 0 <= x < |before| && Count(trees[i], x) > 0 ensures after[x] == before[x] {
        assert Placed(before, v.free, trees, x);
        CountPair(trees, i, j, x);
      }
      FileFrame(before, after, entries[i]);
      SameInode(before, after, entries[i]);
    }
  }

  lemma {:induction false} SameInode(before: Image, after: Image, b: int)
    requires InodeOk(before, b) && |after| == |before| && DataStart(after) == DataStart(before)
    requires FileTree(after, b) == FileTree(before, b) && FileOf(after, b) == FileOf(before, b)
    ensures InodeOk(after, b)
  {
    assert Look(0);
    var f := FileOf(before, b);
    assert f.File? && |f.data| == before[b].inode.size;
    assert FileTree(before, b).Node?;
  }

  /** One file changes, exchanging blocks with the free list: the file system stays sound. */
  lemma {:induction false} FsStep(before: Image, v: View, after: Image, v': View, j: nat, b: int)
    requires FsOk(before, v) && j < |v.entries| && b == v.entries[j] >= 0
    requires Mounted(after, v') && v'.entries == v.entries && v'.held == {}
    requires |after| == |before| && DataStart(after) == DataStart(before)
    requires Conserves(v.free, FileTree(before, b), v'.free, FileTree(after, b))
    requires Same(before, after, v.free, FileTree(before, b))
    requires InodeOk(after, b)
    ensures FsOk(after, v')
    ensures FilesOf(after, v'.entries) == FilesOf(before, v.entries)[j := FileOf(after, b)]
    ensures TreesOf(after, v'.entries) == TreesOf(before, v.entries)[j := FileTree(after, b)]
  {
    var trees := TreesOf(before, v.entries);
    OtherFiles(before, v, trees, after, j, v.entries);
    PartitionHolds(before, v);
    PartitionStep(before, v.free, trees, after, v'.free, j, FileTree(after, b));
  }

  lemma {:induction false} PartitionHolds(img: Image, v: View)
    requires FsOk(img, v)
    ensures Partition(img, v.free, TreesOf(img, v.entries))
  {
    assert Look(0);
  }

  lemma {:induction false} PartitionStep(before: Image, free: set<int>, trees: seq<Tree>, after: Image, free': set<int>,
                                         j: nat, t: Tree)
    requires j < |trees| && Partition(before, free, trees) && Conserves(free, trees[j], free', t)
    requires |after| == |before| && DataStart(after) == DataStart(before)
    ensures Partition(after, free', trees[j := t])
  {
    var trees' := trees[j := t];
    forall x ensures Placed(after, free', trees', x) {
      assert Placed(before, free, trees, x) && Conserved(free, trees[j], free', t, x);
      CountUpdate(trees, j, t, x);
    }
  }
}
