// Allocating, freeing and linking inodes, and what holds over any sequence of operations.

module Inodes {
  import opened Geometry
  import opened Blocks
  import opened Trees
  import opened FreeLists
  import opened IndirectGrow
  import opened IndirectTransfer
  import opened Files
  import opened Resize
  import opened Counting
  import opened SetSize
  import opened SlotTransfer
  import opened FileIO

  /** The largest link count doubles as the error result. */
  const NO_LINKS: int := NLINKS - 1

  // ----- lists and files -----

  /** The file system only depends on the data area and on the inode table. */
  lemma {:induction false} FsSame(before: Image, v: View, after: Image, v': View)
    requires FsOk(before, v) && Mounted(after, v') && v'.entries == v.entries && v'.free == v.free && v'.held == {}
    requires |after| == |before| && DataStart(after) == DataStart(before)
    requires forall x :: DataStart(before) <= x < |before| ==> after[x] == before[x]
    ensures FsOk(after, v') && FilesOf(after, v'.entries) == FilesOf(before, v.entries)
    ensures TreesOf(after, v'.entries) == TreesOf(before, v.entries)
  {
    var trees := TreesOf(before, v.entries);
    PartitionHolds(before, v);
    forall j | 0 <= j < |v.entries| && v.entries[j] >= 0
      ensures FileTree(after, v.entries[j]) == trees[j] && FileOf(after, v.entries[j]) == FileOf(before, v.entries[j])
      ensures InodeOk(after, v.entries[j])
    {
      assert FileOk(before, v.entries, j);
      forall x | 0 <= x < |before| && Count(trees[j], x) > 0 ensures after[x] == before[x] {
        assert Placed(before, v.free, trees, x);
        CountMember(trees, j, x);
      }
      FileFrame(before, after, v.entries[j]);
      SameInode(before, after, v.entries[j]);
    }
    assert TreesOf(after, v'.entries) == trees;
    forall x ensures Placed(after, v'.free, trees, x) {
      assert Placed(before, v.free, trees, x);
    }
  }

  /** Which blocks are free follows from the files. */
  lemma {:induction false} FreeFollows(img: Image, v: View, img': Image, v': View)
    requires FsOk(img, v) && FsOk(img', v') && |img'| == |img| && DataStart(img') == DataStart(img)
    requires TreesOf(img', v'.entries) == TreesOf(img, v.entries)
    ensures v'.free == v.free
  {
    PartitionHolds(img, v);
    PartitionHolds(img', v');
    forall x ensures x in v'.free <==> x in v.free {
      assert Placed(img, v.free, TreesOf(img, v.entries), x);
      assert Placed(img', v'.free, TreesOf(img, v.entries), x);
    }
  }

  // ----- inode_allocate -----

  /** The inode every new file starts with. */
  function NewInode(): Inode {
    Inode(false, 0, 0, seq(SLOTS, _ => EOF))
  }

  const EMPTY: File := File(false, 0, [])

  lemma {:induction false} NewFile(img: Image, b: int)
    requires DataStart(img) <= b < |img| && img[b] == InodeBlock(NewInode())
    ensures InodeOk(img, b) && FileOf(img, b) == EMPTY
    ensures forall x :: Count(FileTree(img, b), x) == One(b, x)
  {
    var ts := Slots(img, NewInode().blocks);
    EmptySlots(ts);
    forall x ensures Count(FileTree(img, b), x) == One(b, x) {
      NilForest(ts, x);
    }
  }

  lemma {:induction false} EmptySlots(ts: seq<Tree>)
    requires |ts| == SLOTS && forall s :: 0 <= s < SLOTS ==> ts[s] == Nil
    ensures FileShape(ts, 0)
  {
    forall s | 0 <= s < SLOTS ensures Shape(ts[s], Level(s), SlotShare(0, s)) {
    }
  }

  /** Number `j` has been given block `b`, with a new inode in it. */
  lemma {:induction false} FileAdded(before: Image, v: View, after: Image, v': View, j: nat, b: int)
    requires FsOk(before, v) && Mounted(after, v') && v'.held == {}
    requires j < |v.entries| && v.entries[j] < 0 && b in v.free && DataStart(before) <= b < |before|
    requires v'.entries == v.entries[j := b] && v'.free == v.free - {b}
    requires |after| == |before| && DataStart(after) == DataStart(before) && after[b] == InodeBlock(NewInode())
    requires forall x :: DataStart(before) <= x < |before| && x !in v.free ==> after[x] == before[x]
    ensures FsOk(after, v') && FilesOf(after, v'.entries) == FilesOf(before, v.entries)[j := EMPTY]
    ensures OthersKept(TreesOf(before, v.entries), TreesOf(after, v'.entries), j)
  {
    var trees := TreesOf(before, v.entries);
    NewFile(after, b);
    OtherFiles(before, v, trees, after, j, v'.entries);
    PartitionHolds(before, v);
    forall x ensures Conserved(v.free, Nil, v'.free, FileTree(after, b), x) {
    }
    PartitionStep(before, v.free, trees, after, v'.free, j, FileTree(after, b));
  }

  /** An empty file with no links has got the first free number; or, exactly if there was no free
      number or no free block, nothing has changed. */
  ghost predicate Allocated(before: Image, v: View, after: Image, v': View, r: int) {
    var fs, fs' := FilesOf(before, v.entries), FilesOf(after, v'.entries);
    var trees, trees' := TreesOf(before, v.entries), TreesOf(after, v'.entries);
    if v.spare == [] || v.free == {} then r == -1 && v' == v && fs' == fs && trees' == trees
    else
      && 0 <= r < |fs| && fs[r].Missing? && fs' == fs[r := EMPTY]
      && trees[r] == Nil && OthersKept(trees, trees', r)
      && v.spare == v'.spare + [r] && |v'.free| + 1 == |v.free|
  }

  lemma {:induction false} NotAllocated(before: Image, v: View, after: Image)
    requires FsOk(before, v) && Mounted(after, v) && (v.spare == [] || v.free == {})
    requires |after| == |before| && DataStart(after) == DataStart(before)
    requires forall x :: DataStart(before) <= x < |before| ==> after[x] == before[x]
    ensures FsOk(after, v) && Allocated(before, v, after, v, -1)
  {
    FsSame(before, v, after, v);
  }

  lemma {:induction false} NowAllocated(before: Image, v: View, after: Image, v': View, j: nat, b: int)
    requires FsOk(before, v) && Mounted(after, v') && v'.held == {}
    requires j < |v.entries| && v.entries[j] < 0 && b in v.free && DataStart(before) <= b < |before|
    requires v'.entries == v.entries[j := b] && v'.free == v.free - {b} && v.spare == v'.spare + [j]
    requires |after| == |before| && DataStart(after) == DataStart(before) && after[b] == InodeBlock(NewInode())
    requires forall x :: DataStart(before) <= x < |before| && x !in v.free ==> after[x] == before[x]
    ensures FsOk(after, v') && Allocated(before, v, after, v', j)
  {
    FileAdded(before, v, after, v', j, b);
    assert FilesOf(before, v.entries)[j] == Missing;
  }

  /** Puts the number just taken back on the list. */
  method PutBack(d: Disk, inumber: nat, ghost img0: Image, ghost v0: View)
    requires FsOk(img0, v0) && |v0.spare| > 0 && inumber == v0.spare[|v0.spare| - 1] && v0.free == {}
    requires d.Valid() && d.view == v0.(spare := v0.spare[..|v0.spare| - 1], held := v0.held + {inumber})
    requires |d.Image()| == |img0| && DataStart(d.Image()) == DataStart(img0)
    requires forall x :: DataStart(img0) <= x < |img0| ==> d.Image()[x] == img0[x]
    modifies d`view, d.data
    ensures FsOk(d.Image(), d.view) && |d.Image()| == |img0| && DataStart(d.Image()) == DataStart(img0)
    ensures Allocated(img0, v0, d.Image(), d.view, -1)
  {
    ghost var v1 := d.view;
    BeforeTop(v0, v1);
    assert SignAt(v1.entries, v1.spare, v1.held, inumber);
    d.InoFree(inumber);
    assert d.view.spare == v0.spare && d.view.entries == v0.entries && d.view.held == v0.held;
    NotAllocated(img0, v0, d.Image());
  }

  /** Allocates an inode number and a block for the inode. */
  method InodeAllocate(d: Disk) returns (r: int)
    requires FsOk(d.Image(), d.view)
    modifies d`view, d.data
    ensures FsOk(d.Image(), d.view) && |d.Image()| == |old(d.Image())|
    ensures DataStart(d.Image()) == DataStart(old(d.Image()))
    ensures Allocated(old(d.Image()), old(d.view), d.Image(), d.view, r)
    ensures r == -1 <==> old(d.view).spare == [] || old(d.view).free == {}
    ensures r == -1 ==> d.view == old(d.view)
    ensures r != -1 ==> old(d.view).spare == d.view.spare + [r]
    ensures FilesOf(d.Image(), d.view.entries)
         == if 0 <= r < |d.view.entries| then FilesOf(old(d.Image()), old(d.view).entries)[r := File(false, 0, [])]
            else FilesOf(old(d.Image()), old(d.view).entries)
  {
    ghost var img0, v0 := d.Image(), d.view;
    var inumber := d.InoAllocate();
    if inumber < 0 {
      NotAllocated(img0, v0, d.Image());
      return -1;
    }
    TopIsFree(v0, inumber);
    var block := d.BlockAllocate();
    if block < 0 {
      PutBack(d, inumber, img0, v0);
      return -1;
    }
    d.InoGive(inumber, block);
    d.WriteOwned(block, InodeBlock(NewInode()));
    NowAllocated(img0, v0, d.Image(), d.view, inumber, block);
    return inumber;
  }

  lemma {:induction false} TopIsFree(v: View, j: int)
    requires |v.spare| > 0 && j == v.spare[|v.spare| - 1] && 0 <= j < |v.entries|
    requires forall i :: SignAt(v.entries, v.spare, v.held, i)
    requires forall i, k :: Apart(v.spare, i, k)
    ensures v.entries[j] < 0 && j !in v.spare[..|v.spare| - 1]
  {
    assert SignAt(v.entries, v.spare, v.held, j);
    forall i | 0 <= i < |v.spare| - 1 ensures v.spare[i] != j {
      assert Apart(v.spare, i, |v.spare| - 1);
    }
  }

  /** Below the top of the list, no number is zero; and the top's entry is its link. */
  lemma {:induction false} BeforeTop(v: View, v': View)
    requires forall i :: SpareAt(v.entries, v.spare, i)
    requires |v.spare| > 0 && v'.spare == v.spare[..|v.spare| - 1] && v'.entries == v.entries
    ensures Below(v'.spare, |v'.spare|) != 0
    ensures var j := v.spare[|v.spare| - 1]; 0 <= j < |v.entries| && v.entries[j] == Neg(Below(v'.spare, |v'.spare|))
  {
    var top := |v.spare| - 1;
    assert SpareAt(v.entries, v.spare, top) && SpareAt(v.entries, v.spare, top - 1);
  }

  // ----- inode_free -----

  /** A file without data holds its inode block only. */
  lemma {:induction false} BareFile(img: Image, b: int)
    requires InodeOk(img, b) && img[b].inode.size == 0
    ensures forall x :: Count(FileTree(img, b), x) == One(b, x)
  {
    var ts := Slots(img, img[b].inode.blocks);
    Unfolded(img, b);
    forall x ensures Count(FileTree(img, b), x) == One(b, x) {
      forall s | 0 <= s < SLOTS ensures ts[s] == Nil {
        ShapeOf(ts, 0, s);
      }
      NilForest(ts, x);
    }
  }

  /** A bare file is gone, and its number and its block are free. */
  lemma {:induction false} FileRemoved(before: Image, v: View, after: Image, v': View, j: nat, b: int)
    requires FsOk(before, v) && Mounted(after, v') && v'.held == {}
    requires j < |v.entries| && b == v.entries[j] >= 0 && InodeOk(before, b) && before[b].inode.size == 0
    requires |v'.entries| == |v.entries| && v'.entries == v.entries[j := v'.entries[j]] && v'.entries[j] < 0
    requires v'.free == v.free + {b}
    requires |after| == |before| && DataStart(after) == DataStart(before)
    requires forall x :: DataStart(before) <= x < |before| && x !in v'.free ==> after[x] == before[x]
    ensures FsOk(after, v') && FilesOf(after, v'.entries) == FilesOf(before, v.entries)[j := Missing]
    ensures TreesOf(after, v'.entries) == TreesOf(before, v.entries)[j := Nil]
  {
    var trees := TreesOf(before, v.entries);
    BareFile(before, b);
    OtherFiles(before, v, trees, after, j, v'.entries);
    PartitionHolds(before, v);
    forall x ensures Conserved(v.free, trees[j], v'.free, Nil, x) {
      assert Placed(before, v.free, trees, x);
      CountMember(trees, j, x);
    }
    PartitionStep(before, v.free, trees, after, v'.free, j, Nil);
  }

  /** Inode 0 heads the list of free numbers: a number put back now would be linked to it by its own
      negation. */
  ghost predicate ZeroHeads(spare: seq<int>) {
    Below(spare, |spare|) == 0
  }

  /** A file without data has its inode block only. */
  lemma {:induction false} FileSizeNone()
    ensures BlocksFor(0) == 0 && FileSize(0) == 1
  {
    SlotSumNone(SLOTS);
    FileSizeIs(0);
  }

  lemma {:induction false} SlotSumNone(s: nat)
    ensures SlotSum(0, s) == 0
  {
    if s > 0 {
      SlotSumNone(s - 1);
    }
  }

  /** The file may be freed. */
  ghost predicate Freeable(f: File) {
    f.File? && f.nlinks == 0
  }

  /** Frees an inode and all its blocks, if it has no links. The file system stays sound if and only
      if the list of free numbers does not begin with 0. */
  method InodeFree(d: Disk, inumber: nat) returns (r: int)
    requires FsOk(d.Image(), d.view) && inumber < |d.view.entries|
    modifies d`view, d.data
    ensures |d.Image()| == |old(d.Image())| && DataStart(d.Image()) == DataStart(old(d.Image()))
    ensures FreeBlocksOk(d.Image(), d.view)
    ensures var fs, fs' := FilesOf(old(d.Image()), old(d.view).entries), FilesOf(d.Image(), d.view.entries);
      var trees, trees' := TreesOf(old(d.Image()), old(d.view).entries), TreesOf(d.Image(), d.view.entries);
      && (FsOk(d.Image(), d.view) <==> !(Freeable(fs[inumber]) && ZeroHeads(old(d.view).spare)))
      && (d.Valid() <==> !(Freeable(fs[inumber]) && ZeroHeads(old(d.view).spare)))
      && (if !Freeable(fs[inumber]) then r == -1 && d.Image() == old(d.Image()) && d.view == old(d.view)
          else
            && r == 0 && d.view.spare == old(d.view).spare + [inumber]
            && |d.view.free| == |old(d.view).free| + FileSize(BlocksFor(|fs[inumber].data|))
            && (!ZeroHeads(old(d.view).spare) ==> fs' == fs[inumber := Missing] && trees' == trees[inumber := Nil]))
    ensures var f := FilesOf(old(d.Image()), old(d.view).entries)[inumber];
      && (f.Missing? ==> r == -1) && (f.File? && f.nlinks != 0 ==> r == -1) && (f.File? && f.nlinks == 0 ==> r == 0)
    ensures r == -1 ==> d.Image() == old(d.Image()) && d.view == old(d.view)
  {
    ghost var img0, v0 := d.Image(), d.view;
    Loadable(img0, v0, inumber);
    var block, found, inode := Load(d, inumber);
    if !found {
      return -1;
    }
    if inode.nlinks != 0 {
      return -1;
    }
    var size, lost := InodeSetSize(d, inumber, 0, StartIdxIsZero);
    SizeSetWell(img0, v0, d.Image(), d.view, inumber, block, 0, StartIdxIsZero, size, inode.size);
    FileSizeNone();
    Discard(d, inumber, block);
    return 0;
  }

  /** The end of the call: the file is empty by now. */
  method Discard(d: Disk, inumber: nat, block: int)
    requires FsOk(d.Image(), d.view) && inumber < |d.view.entries| && block == d.view.entries[inumber] >= 0
    requires FileOf(d.Image(), block).File? && FileOf(d.Image(), block).data == []
    modifies d`view, d.data
    ensures |d.Image()| == |old(d.Image())| && DataStart(d.Image()) == DataStart(old(d.Image()))
    ensures FreeBlocksOk(d.Image(), d.view)
    ensures FsOk(d.Image(), d.view) <==> !ZeroHeads(old(d.view).spare)
    ensures d.Valid() <==> !ZeroHeads(old(d.view).spare)
    ensures d.view.spare == old(d.view).spare + [inumber] && |d.view.free| == |old(d.view).free| + 1
    ensures !ZeroHeads(old(d.view).spare) ==>
      && FilesOf(d.Image(), d.view.entries) == FilesOf(old(d.Image()), old(d.view).entries)[inumber := Missing]
      && TreesOf(d.Image(), d.view.entries) == TreesOf(old(d.Image()), old(d.view).entries)[inumber := Nil]
  {
    ghost var img0, v0 := d.Image(), d.view;
    FileClean(img0, v0, inumber, block);
    assert SignAt(v0.entries, v0.spare, v0.held, inumber);
    d.InoFree(inumber);
    assert SignAt(d.view.entries, d.view.spare, d.view.held, inumber) || ZeroHeads(v0.spare);
    d.BlockFree(block);
    if !ZeroHeads(v0.spare) {
      FileRemoved(img0, v0, d.Image(), d.view, inumber, block);
    }
  }

  // ----- inode_link, inode_unlink, inode_getinfo -----

  /** Rewriting the inode's own fields, but not its size or its blocks. */
  lemma {:induction false} InodeChanged(before: Image, v: View, j: nat, b: int, inode: Inode, after: Image)
    requires FsOk(before, v) && j < |v.entries| && b == v.entries[j] >= 0 && InodeOk(before, b)
    requires inode == before[b].inode.(isDir := inode.isDir, nlinks := inode.nlinks)
    requires after == before[b := InodeBlock(inode)] && Mounted(after, v) && DataStart(after) == DataStart(before)
    ensures FsOk(after, v)
    ensures FilesOf(after, v.entries)
         == FilesOf(before, v.entries)[j := FileOf(before, b).(isDir := inode.isDir, nlinks := inode.nlinks)]
    ensures TreesOf(after, v.entries) == TreesOf(before, v.entries)
  {
    var ts := Slots(before, inode.blocks);
    FileClean(before, v, j, b);
    Unfolded(before, b);
    OwnBlocksOf(v.free, b, ts, DataStart(before), |before|);
    InodeWritten(before, after, b, inode, ts);
    ContentFrame(before, after, ts, inode.size);
    assert InodeOk(after, b);
    forall x ensures Conserved(v.free, FileTree(before, b), v.free, FileTree(after, b), x) {
    }
    FsStep(before, v, after, v, j, b);
  }

  /** Stores a link count. */
  method SetLinks(d: Disk, inumber: nat, block: int, inode: Inode, nlinks: nat)
    requires FsOk(d.Image(), d.view) && inumber < |d.view.entries| && block == d.view.entries[inumber]
    requires 0 <= block < |d.Image()|
    requires d.Image()[block] == InodeBlock(inode)
    modifies d.data
    ensures FsOk(d.Image(), d.view) && |d.Image()| == |old(d.Image())|
    ensures DataStart(d.Image()) == DataStart(old(d.Image()))
    ensures var fs, fs' := FilesOf(old(d.Image()), d.view.entries), FilesOf(d.Image(), d.view.entries);
      fs[inumber].File? && fs' == fs[inumber := fs[inumber].(nlinks := nlinks)]
    ensures TreesOf(d.Image(), d.view.entries) == TreesOf(old(d.Image()), d.view.entries)
  {
    ghost var img0 := d.Image();
    Loadable(img0, d.view, inumber);
    FileClean(img0, d.view, inumber, block);
    d.WriteOwned(block, InodeBlock(inode.(nlinks := nlinks)));
    InodeChanged(img0, d.view, inumber, block, inode.(nlinks := nlinks), d.Image());
  }

  /** Sets the mode: here, whether the file is a directory. */
  method InodeChmod(d: Disk, inumber: nat, isDir: bool) returns (r: int)
    requires FsOk(d.Image(), d.view) && inumber < |d.view.entries|
    modifies d.data
    ensures FsOk(d.Image(), d.view) && |d.Image()| == |old(d.Image())|
    ensures DataStart(d.Image()) == DataStart(old(d.Image()))
    ensures var fs, fs' := FilesOf(old(d.Image()), d.view.entries), FilesOf(d.Image(), d.view.entries);
      if fs[inumber].Missing? then r == -1 && d.Image() == old(d.Image())
      else r == 0 && fs' == fs[inumber := fs[inumber].(isDir := isDir)]
    ensures TreesOf(d.Image(), d.view.entries) == TreesOf(old(d.Image()), d.view.entries)
  {
    ghost var img0 := d.Image();
    Loadable(img0, d.view, inumber);
    var block, found, inode := Load(d, inumber);
    if !found {
      return -1;
    }
    FileClean(img0, d.view, inumber, block);
    d.WriteOwned(block, InodeBlock(inode.(isDir := isDir)));
    InodeChanged(img0, d.view, inumber, block, inode.(isDir := isDir), d.Image());
    return 0;
  }

  method InodeLink(d: Disk, inumber: nat) returns (nlinks: int)
    requires FsOk(d.Image(), d.view) && inumber < |d.view.entries|
    modifies d.data
    ensures FsOk(d.Image(), d.view) && |d.Image()| == |old(d.Image())|
    ensures DataStart(d.Image()) == DataStart(old(d.Image()))
    ensures var fs, fs' := FilesOf(old(d.Image()), d.view.entries), FilesOf(d.Image(), d.view.entries);
      if fs[inumber].Missing? then nlinks == NO_LINKS && d.Image() == old(d.Image())
      else nlinks == (fs[inumber].nlinks + 1) % NLINKS && fs' == fs[inumber := fs[inumber].(nlinks := nlinks)]
    ensures TreesOf(d.Image(), d.view.entries) == TreesOf(old(d.Image()), d.view.entries)
  {
    Loadable(d.Image(), d.view, inumber);
    var block, found, inode := Load(d, inumber);
    if !found {
      return NO_LINKS;
    }
    nlinks := (inode.nlinks + 1) % NLINKS;
    SetLinks(d, inumber, block, inode, nlinks);
  }

  method InodeUnlink(d: Disk, inumber: nat) returns (nlinks: int)
    requires FsOk(d.Image(), d.view) && inumber < |d.view.entries|
    modifies d.data
    ensures FsOk(d.Image(), d.view) && |d.Image()| == |old(d.Image())|
    ensures DataStart(d.Image()) == DataStart(old(d.Image()))
    ensures var fs, fs' := FilesOf(old(d.Image()), d.view.entries), FilesOf(d.Image(), d.view.entries);
      if fs[inumber].Missing? then nlinks == NO_LINKS && d.Image() == old(d.Image())
      else nlinks == (fs[inumber].nlinks - 1) % NLINKS && fs' == fs[inumber := fs[inumber].(nlinks := nlinks)]
    ensures TreesOf(d.Image(), d.view.entries) == TreesOf(old(d.Image()), d.view.entries)
  {
    Loadable(d.Image(), d.view, inumber);
    var block, found, inode := Load(d, inumber);
    if !found {
      return NO_LINKS;
    }
    nlinks := (inode.nlinks - 1) % NLINKS;
    SetLinks(d, inumber, block, inode, nlinks);
  }

  // ----- from a new file system, over any sequence of operations -----

  /** A new file system has no file. */
  lemma {:induction false} FreshOk(img: Image, v: View)
    requires Mounted(img, v) && v.held == {} && v.free == Interval(DataStart(img), |img|)
    requires forall j :: 0 <= j < |v.entries| ==> v.entries[j] < 0
    ensures FsOk(img, v) && forall j :: 0 <= j < |v.entries| ==> FilesOf(img, v.entries)[j].Missing?
  {
    var trees := TreesOf(img, v.entries);
    forall x ensures Placed(img, v.free, trees, x) {
      NilForest(trees, x);
    }
    assert Partition(img, v.free, trees);
  }

  /** Block `x` has one place, in tree `j`. */
  ghost predicate SoleOwner(trees: seq<Tree>, x: int, j: int)
    requires 0 <= j < |trees|
  {
    Count(trees[j], x) == 1 && forall i :: 0 <= i < |trees| && i != j ==> Count(trees[i], x) == 0
  }

  /** Every block of the data area is free or has one place in one file, never both; and the
      superblock counts the free ones. */
  lemma {:induction false} StoragePartition(img: Image, v: View, x: int)
    requires FsOk(img, v) && DataStart(img) <= x < |img|
    ensures x in v.free ==> forall j :: 0 <= j < |v.entries| ==> Count(TreesOf(img, v.entries)[j], x) == 0
    ensures x !in v.free ==> exists j :: 0 <= j < |v.entries| && SoleOwner(TreesOf(img, v.entries), x, j)
    ensures img[0].Super? && img[0].freeBlocks == |v.free|
  {
    var trees := TreesOf(img, v.entries);
    PartitionHolds(img, v);
    assert Placed(img, v.free, trees, x);
    if x in v.free {
      forall j | 0 <= j < |trees| ensures Count(trees[j], x) == 0 {
        CountMember(trees, j, x);
      }
    } else {
      var j := Owner(trees, x);
      forall i | 0 <= i < |trees| && i != j ensures Count(trees[i], x) == 0 {
        CountPair(trees, i, j, x);
      }
      CountMember(trees, j, x);
      assert SoleOwner(trees, x, j);
    }
  }

  ghost function Owner(trees: seq<Tree>, x: int): (j: nat)
    requires CountAll(trees, x) > 0
    ensures j < |trees| && Count(trees[j], x) > 0
  {
    var n := |trees| - 1;
    if Count(trees[n], x) > 0 then n else Owner(trees[..n], x)
  }

  // ----- round trips -----

  /** Setting a file's size, to anything not smaller, and then back restores the free blocks, the
      file's blocks and its bytes. */
  lemma {:induction false} ResizeBack(img0: Image, v0: View, img1: Image, v1: View, img2: Image, v2: View, b: int,
                                      request: nat, r1: nat, size: nat, r2: int)
    requires Resized(img0, v0, img1, v1, b, request, r1) && Resized(img1, v1, img2, v2, b, size, r2)
    requires size == img0[b].inode.size <= r1
    ensures r2 == size && v2.free == v0.free
    ensures FileTree(img2, b) == FileTree(img0, b) && FileOf(img2, b) == FileOf(img0, b)
  {
    SizeBack(img0, v0, img1, v1, img2, v2, b, request, r1, size, r2);
    ResizedContent(img0, v0, img1, v1, b, request, r1);
    ResizedContent(img1, v1, img2, v2, b, size, r2);
    assert FileOf(img2, b).data == FileOf(img0, b).data;
    FreeBack(v0.free, FileTree(img0, b), v1.free, FileTree(img1, b), v2.free);
  }

  lemma {:induction false} FreeBack(free0: set<int>, t: Tree, free1: set<int>, u: Tree, free2: set<int>)
    requires Conserves(free0, t, free1, u) && Conserves(free1, u, free2, t)
    ensures free2 == free0
  {
    forall x ensures x in free2 <==> x in free0 {
      assert Conserved(free0, t, free1, u, x) && Conserved(free1, u, free2, t, x);
    }
  }

  lemma {:induction false} SizeBack(img0: Image, v0: View, img1: Image, v1: View, img2: Image, v2: View, b: int,
                                    request: nat, r1: nat, size: nat, r2: int)
    requires Resized(img0, v0, img1, v1, b, request, r1) && Resized(img1, v1, img2, v2, b, size, r2)
    requires size == img0[b].inode.size <= r1
    ensures r2 == size && FileTree(img2, b) == FileTree(img0, b)
  {
    var ts0, ts1 := Slots(img0, img0[b].inode.blocks), Slots(img1, img1[b].inode.blocks);
    var ts2 := Slots(img2, img2[b].inode.blocks);
    var k := BlocksFor(size);
    ReachBack(r1, size, |v1.free|);
    BlocksForMono(size, r1);
    PrefixesOfResized(img0, v0, img1, v1, b, request, r1, ts0, ts1, k);
    PrefixesOfResized(img1, v1, img2, v2, b, size, r2, ts1, ts2, k);
    SameSlots(img0, img1, img2, ts0, ts1, ts2, k);
  }

  lemma {:induction false} ReachBack(large: nat, size: nat, free: nat)
    requires size <= large <= MAX_FILESIZE
    ensures ReachedSize(large, size, free) == size
  {
    BlocksForMono(size, large);
  }

  lemma {:induction false} PrefixesOfResized(before: Image, v: View, after: Image, v': View, b: int, request: nat,
                                             r: int, was: seq<Tree>, ts: seq<Tree>, k: nat)
    requires Resized(before, v, after, v', b, request, r)
    requires was == Slots(before, before[b].inode.blocks) && ts == Slots(after, after[b].inode.blocks)
    requires k == Lesser(BlocksFor(before[b].inode.size), BlocksFor(r))
    ensures FileShape(was, BlocksFor(before[b].inode.size)) && FileShape(ts, BlocksFor(after[b].inode.size))
    ensures FileTree(before, b) == Node(b, was) && FileTree(after, b) == Node(b, ts)
    ensures PrefixesKept(before, after, was, ts, k)
  {
    assert Look(0);
  }

  lemma {:induction false} SameSlots(img0: Image, img1: Image, img2: Image, ts0: seq<Tree>, ts1: seq<Tree>,
                                     ts2: seq<Tree>, n: int)
    requires FileShape(ts0, n) && FileShape(ts2, n)
    requires PrefixesKept(img0, img1, ts0, ts1, n) && PrefixesKept(img1, img2, ts1, ts2, n)
    ensures ts2 == ts0
  {
    forall s | 0 <= s < SLOTS ensures ts2[s] == ts0[s] {
      PrefixOf(img0, img1, ts0, ts1, n, s);
      PrefixOf(img1, img2, ts1, ts2, n, s);
      ShapeOf(ts0, n, s);
      ShapeOf(ts2, n, s);
      PruneId(ts0[s], Level(s), SlotShare(n, s));
      PruneId(ts2[s], Level(s), SlotShare(n, s));
    }
  }

  /** An empty file is at no risk when it grows. */
  lemma {:induction false} NoHazardAtNone(test: ReleaseTest, request: nat, free: nat)
    ensures !GrowthHazard(test, 0, request, free)
  {
    if 0 < BlocksFor(Capped(request)) {
      BlocksForReachable(Capped(request));
      SlotHolds(0);
    }
  }

  /** File `inumber` has become `f`; no other file has changed. */
  ghost predicate Became(before: Image, v: View, after: Image, v': View, inumber: nat, f: File) {
    && |after| == |before| && DataStart(after) == DataStart(before) && |v'.entries| == |v.entries| && FsOk(after, v')
    && forall u :: Look(u) ==>
         && inumber < |v.entries| && FilesOf(after, v'.entries) == FilesOf(before, v.entries)[inumber := f]
         && OthersKept(TreesOf(before, v.entries), TreesOf(after, v'.entries), inumber)
  }

  lemma {:induction false} BecameBoth(img0: Image, v0: View, img1: Image, v1: View, img2: Image, v2: View, inumber: nat,
                                      f: File, g: File)
    requires Became(img0, v0, img1, v1, inumber, f) && Became(img1, v1, img2, v2, inumber, g)
    ensures Became(img0, v0, img2, v2, inumber, g)
  {
    assert Look(0);
  }

  lemma {:induction false} BecameMeans(img0: Image, v0: View, img1: Image, v1: View, inumber: nat, f: File)
    requires Became(img0, v0, img1, v1, inumber, f)
    ensures inumber < |v0.entries| && FilesOf(img1, v1.entries) == FilesOf(img0, v0.entries)[inumber := f]
    ensures OthersKept(TreesOf(img0, v0.entries), TreesOf(img1, v1.entries), inumber)
  {
    assert Look(0);
  }

  /** What making a file, writing to it and freeing it leaves behind: nothing, if it gets to its end or cannot begin;
      otherwise the one file. */
  ghost predicate Discarded(before: Image, v: View, after: Image, v': View, done: bool) {
    var fs, fs' := FilesOf(before, v.entries), FilesOf(after, v'.entries);
    if done || v.spare == [] || v.free == {} then fs' == fs && v'.spare == v.spare && v'.free == v.free
    else exists j :: 0 <= j < |fs| == |fs'| && v.spare == v'.spare + [j] && fs' == fs[j := fs'[j]]
  }

  lemma {:induction false} DiscardedIs(img0: Image, v0: View, img1: Image, v1: View, img2: Image, v2: View, j: nat,
                                       f: File, done: bool)
    requires FsOk(img0, v0) && Allocated(img0, v0, img1, v1, j) && |img1| == |img0|
    requires DataStart(img1) == DataStart(img0)
    requires Became(img1, v1, img2, v2, j, f)
    requires if done then f == Missing && v2.spare == v1.spare + [j] && TreesOf(img2, v2.entries)[j] == Nil
      else v2.spare == v1.spare
    ensures Discarded(img0, v0, img2, v2, done)
  {
    var fs0, fs2 := FilesOf(img0, v0.entries), FilesOf(img2, v2.entries);
    BecameMeans(img1, v1, img2, v2, j, f);
    if done {
      assert TreesOf(img2, v2.entries) == TreesOf(img0, v0.entries);
      assert fs2 == fs0;
      FreeFollows(img0, v0, img2, v2);
    } else {
      assert v0.spare == v2.spare + [j] && fs2 == fs0[j := fs2[j]];
    }
  }

  /** Making a file, writing to it and freeing it restores the free blocks and the free numbers, and
      leaves every other file as it was. It runs to its end if and only if there are a free number and
      a free block, and the write does not stop at an assertion. */
  method WriteAndDiscard(d: Disk, bytes: seq<Byte>, pos: nat, test: ReleaseTest, clamp: Clamp) returns (done: bool)
    requires FsOk(d.Image(), d.view)
    modifies d`view, d.data
    ensures FsOk(d.Image(), d.view) && Discarded(old(d.Image()), old(d.view), d.Image(), d.view, done)
    ensures done <==> old(d.view).spare != [] && old(d.view).free != {}
                      && !Overshoots(clamp, 0, pos, WriteReach(0, pos + |bytes|, |old(d.view).free| - 1))
  {
    ghost var img0, v0 := d.Image(), d.view;
    ghost var i := |v0.spare| - 2;
    assert SpareAt(v0.entries, v0.spare, i);
    var inumber := InodeAllocate(d);
    ghost var img1, v1 := d.Image(), d.view;
    if inumber < 0 {
      FreeFollows(img0, v0, img1, v1);
      return false;
    }
    assert !ZeroHeads(v1.spare);
    done := WriteAndFree(d, inumber, bytes, pos, test, clamp);
    ghost var f := if done then Missing else FilesOf(d.Image(), d.view.entries)[inumber];
    DiscardedIs(img0, v0, img1, v1, d.Image(), d.view, inumber, f, done);
  }

  /** Writes to an empty file without links, and frees it. */
  method WriteAndFree(d: Disk, inumber: nat, bytes: seq<Byte>, pos: nat, test: ReleaseTest,
                      clamp: Clamp) returns (done: bool)
    requires FsOk(d.Image(), d.view) && !ZeroHeads(d.view.spare)
    requires inumber < |d.view.entries| && FilesOf(d.Image(), d.view.entries)[inumber] == EMPTY
    modifies d`view, d.data
    ensures FsOk(d.Image(), d.view) && |d.Image()| == |old(d.Image())|
    ensures DataStart(d.Image()) == DataStart(old(d.Image()))
    ensures done <==> !Overshoots(clamp, 0, pos, WriteReach(0, pos + |bytes|, |old(d.view).free|))
    ensures done ==> Became(old(d.Image()), old(d.view), d.Image(), d.view, inumber, Missing)
    ensures !done ==>
      && Became(old(d.Image()), old(d.view), d.Image(), d.view, inumber, FilesOf(d.Image(), d.view.entries)[inumber])
      && d.view.spare == old(d.view).spare
    ensures done ==> d.view.spare == old(d.view).spare + [inumber] && TreesOf(d.Image(), d.view.entries)[inumber] == Nil
  {
    ghost var img0, v0 := d.Image(), d.view;
    done := WriteNew(d, inumber, bytes, pos, test, clamp);
    if done {
      ghost var img1, v1 := d.Image(), d.view;
      ghost var f := FilesOf(img1, v1.entries)[inumber];
      Withdraw(d, inumber);
      BecameBoth(img0, v0, img1, v1, d.Image(), d.view, inumber, f, Missing);
    }
  }

  /** Writes to an empty file without links. */
  method WriteNew(d: Disk, inumber: nat, bytes: seq<Byte>, pos: nat, test: ReleaseTest,
                  clamp: Clamp) returns (done: bool)
    requires FsOk(d.Image(), d.view) && inumber < |d.view.entries|
    requires FilesOf(d.Image(), d.view.entries)[inumber] == EMPTY
    modifies d`view, d.data
    ensures FsOk(d.Image(), d.view) && |d.Image()| == |old(d.Image())|
    ensures DataStart(d.Image()) == DataStart(old(d.Image()))
    ensures done <==> !Overshoots(clamp, 0, pos, WriteReach(0, pos + |bytes|, |old(d.view).free|))
    ensures d.view == old(d.view).(chain := d.view.chain, free := d.view.free)
    ensures done ==> Freeable(FilesOf(d.Image(), d.view.entries)[inumber])
    ensures Became(old(d.Image()), old(d.view), d.Image(), d.view, inumber,
                   FilesOf(d.Image(), d.view.entries)[inumber])
  {
    var data := new Byte[|bytes|](i requires 0 <= i < |bytes| => bytes[i]);
    NoHazardAtNone(test, pos + |bytes|, |d.view.free|);
    assert EndOfWrite(0, pos, |bytes|) == pos + |bytes| && EndOfWrite(0, pos, 0) == pos;
    var outcome := InodeWrite(d, inumber, pos, data, |bytes|, test, clamp);
    return outcome != AssertionFails;
  }

  /** Frees a file without links, when the list of free numbers does not begin with 0. */
  method Withdraw(d: Disk, inumber: nat)
    requires FsOk(d.Image(), d.view) && inumber < |d.view.entries|
    requires Freeable(FilesOf(d.Image(), d.view.entries)[inumber])
    requires !ZeroHeads(d.view.spare)
    modifies d`view, d.data
    ensures Became(old(d.Image()), old(d.view), d.Image(), d.view, inumber, Missing)
    ensures d.view.spare == old(d.view).spare + [inumber] && TreesOf(d.Image(), d.view.entries)[inumber] == Nil
  {
    var freed := InodeFree(d, inumber);
    assert freed == 0;
    assert |FilesOf(d.Image(), d.view.entries)| == |d.view.entries|;
  }
}
