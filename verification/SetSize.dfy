// inode_setsize: the whole call, and what it means for the file and the file system.

module SetSize {
  import opened Geometry
  import opened Blocks
  import opened Trees
  import opened FreeLists
  import opened IndirectGrow
  import opened Files
  import opened Resize
  import opened Counting

  ghost function Lesser(a: int, b: int): int {
    if a <= b then a else b
  }

  method Cap(request: nat) returns (size: nat)
    ensures size == Capped(request)
  {
    BaseOfIndirect();
    OffsetIs(UNREACHABLE);
    var max := FirstBlock(4) * BLOCKSIZE;
    size := if request > max then max else request;
  }

  /** The call would release a live indirect block: the file cannot grow by a single block, and
      the source's test takes an indirect block in use for a new one. */
  ghost predicate GrowthHazard(test: ReleaseTest, size: nat, request: nat, free: nat) {
    BlocksFor(size) < BlocksFor(Capped(request)) && FileHazard(test, BlocksFor(size), free)
  }

  /** It happens to a file with one data block under its double indirect block, on a full disk. */
  lemma {:induction false} HazardExample(n: nat, m: nat)
    requires N >= 2 && n == FirstBlock(2) + 1 && m == n + 1
    ensures GrowthHazard(StartIdxIsZero, Offset(n), Offset(m), 0)
    ensures !GrowthHazard(BlockIsNew, Offset(n), Offset(m), 0)
    ensures m <= UNREACHABLE
  {
    HazardAt(n, m);
    BlocksForWhole(n);
    BlocksForWhole(m);
    OffsetMono(m, UNREACHABLE);
  }

  /** The same, by numbers of blocks. */
  lemma {:induction false} HazardAt(n: nat, m: nat)
    requires N >= 2 && n == FirstBlock(2) + 1 && m == n + 1
    ensures FileHazard(StartIdxIsZero, n, 0) && !FileHazard(BlockIsNew, n, 0) && FileCost(n) > 0 && m <= UNREACHABLE
  {
    InDouble(n, m);
    TestsDiffer();
    FileCostIs(n, DIRECT + 1, 1, StartIdxIsZero, 0);
    FileCostIs(n, DIRECT + 1, 1, BlockIsNew, 0);
  }

  lemma {:induction false} InDouble(n: nat, m: nat)
    requires N >= 2 && n == FirstBlock(2) + 1 && m == n + 1
    ensures SlotOf(n) == DIRECT + 1 && InSlot(n, DIRECT + 1) == 1 && m <= UNREACHABLE
  {
    BaseOfIndirect();
    IndirectCounts();
    MulMono(2, N, N);
    SlotEnds(DIRECT + 1);
    SlotUnique(n, DIRECT + 1);
  }

  /** The size stored is the one that the free blocks allow for; they are fewer by what was added. */
  ghost predicate SizeReached(size: nat, request: nat, r: int, free: nat, free': nat) {
    && 0 <= r == ReachedSize(size, request, free)
    && free' + FileSize(BlocksFor(r)) == free + FileSize(BlocksFor(size))
  }

  /** The file is sound, and all it has kept of its data is where it was. */
  ghost predicate Resized(before: Image, v: View, after: Image, v': View, b: int, request: nat, r: int) {
    && |before| == |after| && InodeOk(before, b) && InodeOk(after, b) && 0 <= r
    && v' == v.(chain := v'.chain, free := v'.free)
    && after[b].inode == before[b].inode.(size := r, blocks := after[b].inode.blocks)
    && SizeReached(before[b].inode.size, request, r, |v.free|, |v'.free|)
    && Conserves(v.free, FileTree(before, b), v'.free, FileTree(after, b))
    && forall u :: Look(u) ==>
         PrefixesKept(before, after, Slots(before, before[b].inode.blocks), Slots(after, after[b].inode.blocks),
                      Lesser(BlocksFor(before[b].inode.size), BlocksFor(r)))
  }

  /** What the call does to file `j`, whose inode is in block `b`. No other file changes, and no block
      comes to be used twice; this file and the whole file system stay sound exactly if no live
      block is released. */
  ghost predicate SizeSet(before: Image, v: View, after: Image, v': View, j: nat, b: int, request: nat,
                          test: ReleaseTest, r: int) {
    && j < |v.entries| && v'.entries == v.entries && 0 <= b < |before| && before[b].InodeBlock?
    && (FsOk(after, v') <==> !GrowthHazard(test, before[b].inode.size, request, |v.free|))
    && FilesOf(after, v'.entries) == FilesOf(before, v.entries)[j := FileOf(after, b)]
    && TreesOf(after, v'.entries) == TreesOf(before, v.entries)[j := FileTree(after, b)]
    && NoneMore(v.free, FileTree(before, b), v'.free, FileTree(after, b))
    && r == ReachedSize(before[b].inode.size, request, |v.free|)
    && (FsOk(after, v') ==> Resized(before, v, after, v', b, request, r))
  }

  /** Both files begin with the same bytes, as far as both go. */
  ghost predicate SameStart(f: File, f': File) {
    && f.File? && f'.File? && f'.isDir == f.isDir && f'.nlinks == f.nlinks
    && forall o :: 0 <= o < |f.data| && o < |f'.data| ==> f'.data[o] == f.data[o]
  }

  lemma {:induction false} ResizedContent(before: Image, v: View, after: Image, v': View, b: int, request: nat, r: int)
    requires Resized(before, v, after, v', b, request, r)
    ensures SameStart(FileOf(before, b), FileOf(after, b)) && |FileOf(after, b).data| == r
  {
    assert Look(0);
    var inode, inode' := before[b].inode, after[b].inode;
    var was, ts, n, c := Slots(before, inode.blocks), Slots(after, inode'.blocks), BlocksFor(inode.size), BlocksFor(r);
    var m := Lesser(n, c);
    BlocksForReachable(r);
    forall o: nat | o < inode.size && o < r ensures FileByte(after, ts, o) == FileByte(before, was, o) {
      ByteInPrefix(o, inode.size, r, m);
      PrefixBytes(before, after, was, ts, n, c, m, o);
    }
  }

  lemma {:induction false} ByteInPrefix(o: nat, size: nat, r: nat, m: int)
    requires o < size && o < r && m == Lesser(BlocksFor(size), BlocksFor(r))
    ensures o < Offset(m)
  {
    BlocksForIs(size);
    BlocksForIs(r);
  }

  /** What a call that releases no live block means for its file. */
  lemma {:induction false} SizeSetWell(before: Image, v: View, after: Image, v': View, j: nat, b: int, request: nat,
                                       test: ReleaseTest, r: int, size: nat)
    requires SizeSet(before, v, after, v', j, b, request, test, r) && size == before[b].inode.size
    requires !GrowthHazard(test, size, request, |v.free|)
    ensures FsOk(after, v') && SizeReached(size, request, r, |v.free|, |v'.free|)
    ensures |after| == |before| && after[b].InodeBlock? && after[b].inode.size == r && size <= MAX_FILESIZE
    ensures SameStart(FileOf(before, b), FileOf(after, b)) && |FileOf(after, b).data| == r
    ensures FilesOf(after, v'.entries) == FilesOf(before, v.entries)[j := FileOf(after, b)]
    ensures TreesOf(after, v'.entries) == TreesOf(before, v.entries)[j := FileTree(after, b)]
  {
    ResizedContent(before, v, after, v', b, request, r);
  }

  // ----- the end of the call -----

  /** The free blocks before and after tell how many have been added. */
  lemma {:induction false} FreeCount(before: Image, free: set<int>, b: int, was: seq<Tree>, img: Image, free1: set<int>,
                                     blocks: seq<int>, n: int, c: int, m: int)
    requires Settled(before, free, b, was, img, free1, blocks, n, c, m)
    requires Clean(free, Node(b, was), DataStart(before), |before|)
    ensures |free1| + FileSize(c) == |free| + FileSize(n)
  {
    var ts := Slots(img, blocks);
    SettledMeans(before, free, b, was, img, free1, blocks, n, c, m);
    forall x ensures In(free, x) + Count(Node(b, was), x) <= 1 {
      assert Sole(free, Node(b, was), DataStart(before), |before|, x);
    }
    SizeConserved(free, Node(b, was), free1, Node(b, ts));
    SizeOfFile(b, was, n);
    SizeOfFile(b, ts, c);
  }

  /** The size stored is the size reached, whether or not a live block was released. */
  lemma {:induction false} SizeIsReached(before: Image, free: set<int>, b: int, was: seq<Tree>, img: Image,
                                         free1: set<int>, blocks: seq<int>, test: ReleaseTest, size: nat, request: nat,
                                         oldc: int, newc: int, count: int, r: int)
    requires Concluded(before, free, b, was, img, free1, blocks, test, oldc, newc, count)
    requires Clean(free, Node(b, was), DataStart(before), |before|) && size <= MAX_FILESIZE
    requires oldc == BlocksFor(size) && newc == BlocksFor(Capped(request))
    requires r == if count == newc then Capped(request) else Offset(count)
    ensures r == ReachedSize(size, request, |free|)
    ensures !GrowthHazard(test, size, request, |free|) ==> |free1| + FileSize(count) == |free| + FileSize(oldc)
  {
    BlocksForReachable(size);
    BlocksForReachable(Capped(request));
    if !GrowthHazard(test, size, request, |free|) {
      FreeCount(before, free, b, was, img, free1, blocks, oldc, count, Lesser(oldc, count));
      if oldc <= count {
        SpendIs(oldc, count);
      }
    } else {
      FileCostIs(oldc, SlotOf(oldc), InSlot(oldc, SlotOf(oldc)), test, |free|);
    }
    ReachedHere(size, request, count, |free|, r);
  }

  /** Writing the inode back completes the change. */
  lemma {:induction false} InodeStored(before: Image, v: View, b: int, was: seq<Tree>, img: Image, v1: View,
                                       blocks: seq<int>, request: nat, n: int, c: int, m: int, after: Image, r: nat)
    requires InodeOk(before, b) && was == Slots(before, before[b].inode.blocks)
    requires Settled(before, v.free, b, was, img, v1.free, blocks, n, c, m)
    requires v1 == v.(chain := v1.chain, free := v1.free)
    requires Clean(v.free, Node(b, was), DataStart(before), |before|) && |img| == |before|
    requires after == img[b := InodeBlock(before[b].inode.(size := r, blocks := blocks))]
    requires DataStart(after) == DataStart(before)
    requires n == BlocksFor(before[b].inode.size) && SizeReached(before[b].inode.size, request, r, |v.free|, |v1.free|)
    requires BlocksFor(r) == c <= UNREACHABLE && r <= MAX_FILESIZE
    ensures Resized(before, v, after, v1, b, request, r)
    ensures Conserves(v.free, FileTree(before, b), v1.free, FileTree(after, b))
    ensures Same(before, after, v.free, FileTree(before, b))
  {
    var ts := Slots(img, blocks);
    SettledMeans(before, v.free, b, was, img, v1.free, blocks, n, c, m);
    ChildClean(v.free, Node(b, was), DataStart(before), |before|, v1.free, b, ts, 0);
    InodeWritten(img, after, b, after[b].inode, ts);
    PrefixesStored(before, img, after, b, was, ts, n, c, m);
  }

  lemma {:induction false} PrefixesStored(before: Image, img: Image, after: Image, b: int, was: seq<Tree>,
                                          ts: seq<Tree>, n: int, c: int, m: int)
    requires CountAll(ts, b) == 0 && |img| == |before| == |after| && m <= n && m <= c
    requires FileShape(was, n) && FileShape(ts, c) && PrefixesKept(before, img, was, ts, m)
    requires forall x :: 0 <= x < |img| && x != b ==> after[x] == img[x]
    ensures PrefixesKept(before, after, was, ts, m)
  {
    forall s | 0 <= s < SLOTS ensures PrefixKept(before, after, was[s], ts[s], Level(s), SlotShare(m, s)) {
      PrefixOf(before, img, was, ts, m, s);
      ShapeOf(was, n, s);
      ShapeOf(ts, c, s);
      ShareMono(m, n, s);
      ShareMono(m, c, s);
      PrefixStored(before, img, after, b, was[s], ts[s], ts, s, Level(s), SlotShare(n, s), SlotShare(c, s),
                   SlotShare(m, s));
    }
  }

  lemma {:induction false} PrefixStored(before: Image, img: Image, after: Image, b: int, was: Tree, t: Tree,
                                        ts: seq<Tree>, s: nat, level: nat, n: int, c: int, m: int)
    requires s < |ts| && ts[s] == t && CountAll(ts, b) == 0 && |img| == |before| == |after|
    requires PrefixKept(before, img, was, t, level, m) && Shape(was, level, n) && Shape(t, level, c)
    requires m <= n <= IndirectCount(level) && m <= c <= IndirectCount(level)
    requires forall x :: 0 <= x < |img| && x != b ==> after[x] == img[x]
    ensures PrefixKept(before, after, was, t, level, m)
  {
    forall k | 0 <= k < m ensures KeptLeaf(before, after, LeafAt(was, level, k)) {
      PrefixLeaf(before, img, was, t, level, n, c, m, k);
      LeafAtMember(t, level, c, k);
      CountMember(ts, s, LeafAt(t, level, k));
    }
  }

  /** After a live block was released, the file no longer holds what its size calls for. */
  lemma {:induction false} SpoiltStored(before: Image, free0: set<int>, b: int, was: seq<Tree>, img: Image,
                                        free: set<int>, blocks: seq<int>, n: int, after: Image, r: nat)
    requires Spoilt(before, free0, b, was, img, free, blocks, n) && |before| > 0 && |img| == |before|
    requires Clean(free0, Node(b, was), DataStart(before), |before|)
    requires 0 <= b < |img| == |after| && after[b].InodeBlock? && after == img[b := after[b]]
    requires after[b].inode.blocks == blocks && after[b].inode.size == r && BlocksFor(r) == n
    ensures !InodeOk(after, b) && b !in free && Same(before, after, free0, Node(b, was))
    ensures NoneMore(free0, Node(b, was), free, FileTree(after, b))
  {
    assert Look(0);
    var ts := Slots(img, blocks);
    assert NotMore(free0, Node(b, was), free, Node(b, ts), b);
    assert Sole(free0, Node(b, was), DataStart(before), |before|, b);
    InodeWritten(img, after, b, after[b].inode, ts);
  }

  // ----- the procedure -----

  /** The block of an inode number and the inode in it, if there is one. */
  method Load(d: Disk, inumber: nat) returns (block: int, found: bool, inode: Inode)
    requires d.Valid() && inumber < |d.view.entries|
    requires d.view.entries[inumber] < |d.Image()|
    ensures block == d.view.entries[inumber]
    ensures found <==> block >= 0 && d.Image()[block].InodeBlock?
    ensures found ==> inode == d.Image()[block].inode
  {
    block := d.InoGet(inumber);
    inode := Inode(false, 0, 0, []);
    found := false;
    if block >= 0 {
      var stored := d.Read(block);
      if stored.InodeBlock? {
        found, inode := true, stored.inode;
      }
    }
  }

  lemma {:induction false} Loadable(img: Image, v: View, j: nat)
    requires FsOk(img, v) && j < |v.entries|
    ensures v.entries[j] < |img|
    ensures v.entries[j] >= 0 ==> InodeOk(img, v.entries[j])
  {
    assert FileOk(img, v.entries, j);
    assert SignAt(v.entries, v.spare, v.held, j);
  }

  /** Sets the size of a file. The result is the new size, or -1 if there is no such inode; `lost` says
      that a block in use has been released. */
  method InodeSetSize(d: Disk, inumber: nat, request: nat, test: ReleaseTest) returns (r: int, lost: bool)
    requires FsOk(d.Image(), d.view) && inumber < |d.view.entries|
    modifies d`view, d.data
    ensures d.Valid() && |d.Image()| == |old(d.Image())| && DataStart(d.Image()) == DataStart(old(d.Image()))
    ensures d.view == old(d.view).(chain := d.view.chain, free := d.view.free)
    ensures FsOk(d.Image(), d.view) <==> !lost
    ensures old(d.view).entries[inumber] < 0 ==> r == -1 && d.Image() == old(d.Image()) && d.view == old(d.view)
    ensures old(d.view).entries[inumber] >= 0 ==>
      SizeSet(old(d.Image()), old(d.view), d.Image(), d.view, inumber, old(d.view).entries[inumber], request, test, r)
  {
    ghost var img0, v0, free0 := d.Image(), d.view, d.view.free;
    Loadable(img0, v0, inumber);
    var block, found, inode := Load(d, inumber);
    if !found {
      return -1, false;
    }
    FileClean(img0, v0, inumber, block);
    ghost var was := Slots(img0, inode.blocks);
    var size := Cap(request);
    var newc := SizeToBlocks(size);
    var oldc := SizeToBlocks(inode.size);
    BlocksForReachable(size);
    BlocksForReachable(inode.size);
    Unfolded(img0, block);
    var blocks, count, success, lastSlot;
    blocks, count, success, lastSlot, lost := GrowSlots(d, block, inode.blocks, oldc, newc, test, was);
    if count > newc {
      blocks, count := ShrinkSlots(d, block, blocks, oldc, newc, lastSlot, was);
    }
    OffsetIs(count);
    var newsize := if count == newc then size else count * BLOCKSIZE;
    ghost var img1, v1, free1 := d.Image(), d.view, d.view.free;
    AllSettled(img0, free0, block, was, img1, free1, inode.blocks, blocks, test, oldc, newc, count, success, lastSlot);
    var stored := InodeBlock(inode.(size := newsize, blocks := blocks));
    d.WriteOwned(block, stored);
    Stored(img0, v0, inumber, block, was, img1, v1, blocks, test, request, oldc, newc, count, d.Image(), newsize);
    return newsize, lost;
  }

  lemma {:induction false} Unfolded(img: Image, b: int)
    requires InodeOk(img, b)
    ensures FileShape(Slots(img, img[b].inode.blocks), BlocksFor(img[b].inode.size))
    ensures FileTree(img, b) == Node(b, Slots(img, img[b].inode.blocks))
  {
    assert Look(0);
  }

  /** Either a live block was released, or all is well, whichever loop ran. */
  ghost predicate Concluded(before: Image, free0: set<int>, b: int, was: seq<Tree>, img: Image, free: set<int>,
                            blocks: seq<int>, test: ReleaseTest, oldc: int, newc: int, count: int) {
    if oldc < newc && FileHazard(test, oldc, |free0|)
    then count == oldc && Spoilt(before, free0, b, was, img, free, blocks, oldc)
    else Settled(before, free0, b, was, img, free, blocks, oldc, count, Lesser(oldc, count))
         && (count == newc || (oldc <= count < newc && |free| < FileCost(count)))
  }

  lemma {:induction false} AllSettled(before: Image, free0: set<int>, b: int, was: seq<Tree>, img: Image,
                                      free: set<int>, blocks0: seq<int>, blocks: seq<int>, test: ReleaseTest, oldc: int,
                                      newc: int, count: int, success: bool, last: int)
    requires was == Slots(before, blocks0) && FileShape(was, oldc) && |before| > 0 && 0 <= newc
    requires Clean(free0, Node(b, was), DataStart(before), |before|)
    requires oldc == newc ==> img == before && free == free0 && blocks == blocks0 && count == oldc
    requires newc < oldc ==> count == newc && Reducing(before, free0, b, was, img, free, blocks, oldc, newc)
    requires oldc < newc ==> if FileHazard(test, oldc, |free0|)
      then GrowBad(before, free0, b, was, img, free, blocks, test, oldc, count, success)
      else
        && GrowGood(before, free0, b, was, img, free, blocks, test, oldc, newc, last, count, success)
        && (count < newc ==> !success)
    ensures Concluded(before, free0, b, was, img, free, blocks, test, oldc, newc, count)
    ensures DataStart(before) <= b < |before| && b !in free
  {
    if newc < oldc {
      ReducedIsSettled(before, free0, b, was, img, free, blocks, oldc, count);
    } else if oldc == newc {
      EnlargeStart(before, free0, b, was, blocks, oldc);
      EnlargedIsSettled(before, free0, b, was, img, free, blocks, oldc, count);
    } else if !FileHazard(test, oldc, |free0|) {
      EnlargedIsSettled(before, free0, b, was, img, free, blocks, oldc, count);
    }
    StillOwn(before, free0, b, was, img, free, blocks, test, oldc, newc, count);
  }

  lemma {:induction false} StillOwn(before: Image, free0: set<int>, b: int, was: seq<Tree>, img: Image, free: set<int>,
                                    blocks: seq<int>, test: ReleaseTest, oldc: int, newc: int, count: int)
    requires Concluded(before, free0, b, was, img, free, blocks, test, oldc, newc, count)
    requires Clean(free0, Node(b, was), DataStart(before), |before|)
    ensures DataStart(before) <= b < |before| && b !in free
  {
    var t0, t := Node(b, was), Node(b, Slots(img, blocks));
    assert Sole(free0, t0, DataStart(before), |before|, b);
    if oldc < newc && FileHazard(test, oldc, |free0|) {
      SpoiltMeans(before, free0, b, was, img, free, blocks, oldc);
      assert NotMore(free0, t0, free, t, b);
    } else {
      SettledMeans(before, free0, b, was, img, free, blocks, oldc, count, Lesser(oldc, count));
      assert Conserved(free0, t0, free, t, b);
    }
  }

  lemma {:induction false} SpoiltMeans(before: Image, free0: set<int>, b: int, was: seq<Tree>, img: Image,
                                       free: set<int>, blocks: seq<int>, n: int)
    requires Spoilt(before, free0, b, was, img, free, blocks, n)
    ensures NoneMore(free0, Node(b, was), free, Node(b, Slots(img, blocks)))
  {
    assert Look(0);
  }

  lemma {:induction false} SettledMeans(before: Image, free0: set<int>, b: int, was: seq<Tree>, img: Image,
                                        free: set<int>, blocks: seq<int>, n: int, c: int, m: int)
    requires Settled(before, free0, b, was, img, free, blocks, n, c, m)
    ensures FileShape(was, n) && FileShape(Slots(img, blocks), c)
    ensures PrefixesKept(before, img, was, Slots(img, blocks), m)
    ensures Conserves(free0, Node(b, was), free, Node(b, Slots(img, blocks)))
    ensures Same(before, img, free0, Node(b, was))
  {
    assert Look(0);
  }

  lemma {:induction false} Stored(before: Image, v: View, j: nat, b: int, was: seq<Tree>, img: Image, v1: View,
                                  blocks: seq<int>, test: ReleaseTest, request: nat, oldc: int, newc: int, count: int,
                                  after: Image, r: int)
    requires FsOk(before, v) && j < |v.entries| && b == v.entries[j] >= 0 && InodeOk(before, b)
    requires was == Slots(before, before[b].inode.blocks) && FileTree(before, b) == Node(b, was)
    requires oldc == BlocksFor(before[b].inode.size) && newc == BlocksFor(Capped(request))
    requires Concluded(before, v.free, b, was, img, v1.free, blocks, test, oldc, newc, count)
    requires r == if count == newc then Capped(request) else Offset(count)
    requires |img| == |before| && v1 == v.(chain := v1.chain, free := v1.free)
    requires after == img[b := InodeBlock(before[b].inode.(size := r, blocks := blocks))]
    requires Mounted(after, v1) && DataStart(after) == DataStart(before)
    ensures SizeSet(before, v, after, v1, j, b, request, test, r)
  {
    var size := before[b].inode.size;
    FileClean(before, v, j, b);
    StoredSize(size, request, newc, count, r);
    SizeIsReached(before, v.free, b, was, img, v1.free, blocks, test, size, request, oldc, newc, count, r);
    if GrowthHazard(test, size, request, |v.free|) {
      StoredSpoilt(before, v, j, b, was, img, v1, blocks, oldc, after, before[b].inode.(size := r, blocks := blocks),
                   r);
    } else {
      StoredWell(before, v, j, b, was, img, v1, blocks, request, oldc, count, after, r);
      NoMore(v.free, FileTree(before, b), v1.free, FileTree(after, b));
    }
  }

  lemma {:induction false} NoMore(free: set<int>, t: Tree, free': set<int>, t': Tree)
    requires Conserves(free, t, free', t')
    ensures NoneMore(free, t, free', t')
  {
    forall x ensures NotMore(free, t, free', t', x) {
      assert Conserved(free, t, free', t', x);
    }
  }

  lemma {:induction false} StoredSpoilt(before: Image, v: View, j: nat, b: int, was: seq<Tree>, img: Image, v1: View,
                                        blocks: seq<int>, n: int, after: Image, inode: Inode, r: nat)
    requires FsOk(before, v) && j < |v.entries| && b == v.entries[j] >= 0 && FileTree(before, b) == Node(b, was)
    requires Spoilt(before, v.free, b, was, img, v1.free, blocks, n) && v1.entries == v.entries
    requires 0 <= b < |img| == |before| && BlocksFor(r) == n
    requires after == img[b := InodeBlock(inode)] && inode.size == r && inode.blocks == blocks
    requires DataStart(after) == DataStart(before)
    ensures !FsOk(after, v1)
    ensures NoneMore(v.free, FileTree(before, b), v1.free, FileTree(after, b))
    ensures FilesOf(after, v1.entries) == FilesOf(before, v.entries)[j := FileOf(after, b)]
    ensures TreesOf(after, v1.entries) == TreesOf(before, v.entries)[j := FileTree(after, b)]
  {
    FileClean(before, v, j, b);
    SpoiltStored(before, v.free, b, was, img, v1.free, blocks, n, after, r);
    assert !FileOk(after, v1.entries, j);
    OtherFiles(before, v, TreesOf(before, v.entries), after, j, v1.entries);
  }

  lemma {:induction false} StoredWell(before: Image, v: View, j: nat, b: int, was: seq<Tree>, img: Image, v1: View,
                                      blocks: seq<int>, request: nat, n: int, c: int, after: Image, r: nat)
    requires FsOk(before, v) && j < |v.entries| && b == v.entries[j] >= 0 && InodeOk(before, b)
    requires was == Slots(before, before[b].inode.blocks) && FileTree(before, b) == Node(b, was)
    requires Settled(before, v.free, b, was, img, v1.free, blocks, n, c, Lesser(n, c))
    requires n == BlocksFor(before[b].inode.size) && SizeReached(before[b].inode.size, request, r, |v.free|, |v1.free|)
    requires BlocksFor(r) == c <= UNREACHABLE && r <= MAX_FILESIZE
    requires |img| == |before| && v1 == v.(chain := v1.chain, free := v1.free)
    requires after == img[b := InodeBlock(before[b].inode.(size := r, blocks := blocks))]
    requires Mounted(after, v1) && DataStart(after) == DataStart(before)
    ensures FsOk(after, v1) && Resized(before, v, after, v1, b, request, r)
    ensures Conserves(v.free, FileTree(before, b), v1.free, FileTree(after, b))
    ensures FilesOf(after, v1.entries) == FilesOf(before, v.entries)[j := FileOf(after, b)]
    ensures TreesOf(after, v1.entries) == TreesOf(before, v.entries)[j := FileTree(after, b)]
  {
    FileClean(before, v, j, b);
    InodeStored(before, v, b, was, img, v1, blocks, request, n, c, Lesser(n, c), after, r);
    FsStep(before, v, after, v1, j, b);
  }
}
