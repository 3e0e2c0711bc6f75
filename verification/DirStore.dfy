// Directories as files: each operation on a directory is a search and one call that writes a block or
// cuts the file.

module DirStore {
  import opened Geometry
  import opened Blocks
  import opened Trees
  import opened FreeLists
  import opened IndirectGrow
  import opened IndirectTransfer
  import opened Files
  import opened Resize
  import opened Counting
  import opened SetSize
  import opened FileIO
  import opened Inodes
  import opened DirBlocks
  import opened Directories
  import opened DirLayout

  // ----- a directory's bytes -----

  ghost function LaidOut(blocks: seq<DirBlock>): (bytes: seq<Byte>)
    ensures |bytes| == Offset(|blocks|)
  {
    if |blocks| == 0 then [] else LaidOut(blocks[..|blocks| - 1]) + BlockBytes(blocks[|blocks| - 1])
  }

  ghost predicate IsLaid(blocks: seq<DirBlock>, bytes: seq<Byte>) {
    |bytes| == Offset(|blocks|) && forall u :: Look(u) ==> bytes == LaidOut(blocks)
  }

  /** Blocks, one after the other. */
  ghost function Laid(blocks: seq<DirBlock>): (bytes: seq<Byte>)
    ensures |bytes| == Offset(|blocks|)
  {
    assert IsLaid(blocks, LaidOut(blocks));
    var bytes :| IsLaid(blocks, bytes);
    bytes
  }

  /** The bytes of a directory; one that has been destroyed has lost the last. */
  ghost function DirBytes(blocks: seq<DirBlock>, crippled: bool): seq<Byte> {
    if crippled && |blocks| > 0 then Laid(blocks)[..Offset(|blocks|) - 1] else Laid(blocks)
  }

  lemma {:induction false} LaidIs(blocks: seq<DirBlock>)
    ensures Laid(blocks) == LaidOut(blocks)
  {
    assert Look(0);
    assert IsLaid(blocks, Laid(blocks));
  }

  lemma {:induction false} LaidNone()
    ensures Laid([]) == []
  {
  }

  lemma {:induction false} LaidMore(a: seq<DirBlock>, b: DirBlock)
    ensures Laid(a + [b]) == Laid(a) + BlockBytes(b)
  {
    LaidIs(a);
    LaidIs(a + [b]);
    assert (a + [b])[..|a|] == a;
  }

  lemma {:induction false} LaidConcat(a: seq<DirBlock>, b: seq<DirBlock>)
    ensures Laid(a + b) == Laid(a) + Laid(b)
  {
    if |b| == 0 {
      assert a + b == a;
      LaidNone();
    } else {
      var init, last := b[..|b| - 1], b[|b| - 1];
      LaidConcat(a, init);
      LaidMore(a + init, last);
      LaidMore(init, last);
      assert b == init + [last] && a + b == a + init + [last];
      Regrouped(Laid(a), Laid(init), BlockBytes(last));
    }
  }

  lemma {:induction false} Regrouped(a: seq<Byte>, b: seq<Byte>, c: seq<Byte>)
    ensures a + b + c == a + (b + c)
  {
  }

  lemma {:induction false} LaidAround(blocks: seq<DirBlock>, p: nat, b: DirBlock)
    requires p < |blocks|
    ensures Laid(blocks[p := b]) == Laid(blocks[..p]) + BlockBytes(b) + Laid(blocks[p + 1..])
    ensures Offset(p) + BLOCKSIZE + |Laid(blocks[p + 1..])| == Offset(|blocks|)
  {
    var now, upto := blocks[p := b], blocks[..p] + [b];
    assert now == upto + blocks[p + 1..];
    LaidConcat(upto, blocks[p + 1..]);
    LaidMore(blocks[..p], b);
  }

  /** Reading at a multiple of the block size yields one block, up to the end of the file. */
  lemma {:induction false} BlockRead(blocks: seq<DirBlock>, crippled: bool, p: nat)
    requires crippled ==> |blocks| == 1
    ensures Clipped(DirBytes(blocks, crippled), Offset(p), BLOCKSIZE)
         == if p >= |blocks| then [] else if crippled then BlockBytes(blocks[0])[..BLOCKSIZE - 1]
            else BlockBytes(blocks[p])
  {
    if p < |blocks| {
      LaidAround(blocks, p, blocks[p]);
      assert blocks[p := blocks[p]] == blocks;
    } else {
      OffsetMono(|blocks|, p);
    }
  }

  /** Writing a block there replaces it, or adds it at the end. */
  lemma {:induction false} BlockWritten(blocks: seq<DirBlock>, p: nat, b: DirBlock)
    requires p <= |blocks|
    ensures Overlaid(Laid(blocks), Offset(p), BlockBytes(b)) == Laid(WithBlock(blocks, p, b))
  {
    if p < |blocks| {
      LaidAround(blocks, p, blocks[p]);
      LaidAround(blocks, p, b);
      assert blocks[p := blocks[p]] == blocks;
      OverlaidWithin(Laid(blocks[..p]), BlockBytes(blocks[p]), Laid(blocks[p + 1..]), BlockBytes(b));
    } else {
      LaidMore(blocks, b);
      OverlaidWithin(Laid(blocks), [], [], BlockBytes(b));
      assert Laid(blocks) + [] + [] == Laid(blocks);
    }
  }

  lemma {:induction false} OverlaidWithin(a: seq<Byte>, b: seq<Byte>, c: seq<Byte>, now: seq<Byte>)
    requires |now| == |b| || (|b| <= |now| && |c| == 0)
    ensures Overlaid(a + b + c, |a|, now) == a + now + c
  {
    var w, r := Overlaid(a + b + c, |a|, now), a + now + c;
    assert |w| == |r|;
    forall o | 0 <= o < |w| ensures w[o] == r[o] {
    }
  }

  /** Cutting the file there takes the last blocks away. */
  lemma {:induction false} BlocksCut(blocks: seq<DirBlock>, n: nat)
    requires n <= |blocks|
    ensures Offset(n) <= Offset(|blocks|) && Padded(Laid(blocks), Offset(n)) == Laid(blocks[..n])
  {
    OffsetMono(n, |blocks|);
    assert blocks == blocks[..n] + blocks[n..];
    LaidConcat(blocks[..n], blocks[n..]);
  }

  // ----- adding a block at the end -----

  /** There are free blocks for one more data block, and the file may become so large. */
  ghost predicate RoomToAppend(k: nat, free: nat) {
    k < UNREACHABLE && FileCost(k) <= free
  }

  /** How writing a block at the end of a file of `k` blocks ends. A live indirect block is released
      if the file cannot grow, and the source's test takes the block for a new one. */
  ghost function AppendEnds(k: nat, test: ReleaseTest, free: nat): Outcome {
    if k < UNREACHABLE && FileHazard(test, k, free) then LiveBlockReleased
    else Done(if RoomToAppend(k, free) then BLOCKSIZE else 0)
  }

  lemma {:induction false} ReachNext(k: nat, free: nat)
    requires k <= UNREACHABLE
    ensures ReachedSize(Offset(k), Offset(k + 1), free) == if RoomToAppend(k, free) then Offset(k + 1) else Offset(k)
    ensures BlocksFor(Offset(k)) == k && Offset(k) <= MAX_FILESIZE
    ensures BlocksFor(Capped(Offset(k + 1))) == if k < UNREACHABLE then k + 1 else k
    ensures k < UNREACHABLE ==> Capped(Offset(k + 1)) == Offset(k + 1)
  {
    var m := k + 1;
    OffsetMono(k, UNREACHABLE);
    BlocksForWhole(k);
    BlocksForWhole(m);
    if k < UNREACHABLE {
      OffsetMono(m, UNREACHABLE);
      assert Reach(m, m, free - FileCost(k)) == m;
    }
  }

  /** Whatever the source's comparison, a block is added as a whole or not at all. */
  lemma {:induction false} AppendExactCondition(f: File, k: nat, test: ReleaseTest, clamp: Clamp, free: nat)
    requires f.File? && |f.data| == Offset(k) && k <= UNREACHABLE
    ensures WriteEnds(f, Offset(k), BLOCKSIZE, test, clamp, free) == AppendEnds(k, test, free)
  {
    ReachNext(k, free);
    assert EndOfWrite(|f.data|, Offset(k), BLOCKSIZE) == Offset(k + 1);
    assert EndOfWrite(|f.data|, Offset(k), 0) == Offset(k);
  }

  /** It happens to a directory with one block under its double indirect block, on a full disk. */
  lemma {:induction false} AppendHazardExample(k: nat)
    requires N >= 2 && k == FirstBlock(2) + 1
    ensures AppendEnds(k, StartIdxIsZero, 0) == LiveBlockReleased && AppendEnds(k, BlockIsNew, 0) == Done(0)
  {
    var m := k + 1;
    HazardAt(k, m);
  }

  lemma {:induction false} Appended(f: File, f': File, k: nat, src: Source, test: ReleaseTest, clamp: Clamp, free: nat,
                                    free': nat)
    requires f.File? && |f.data| == Offset(k) && k <= UNREACHABLE
    requires WriteDone(f, f', Offset(k), BLOCKSIZE, src, test, clamp, free, free')
    requires AppendEnds(k, test, free).Done?
    ensures f' == if RoomToAppend(k, free) then f.(data := f.data + Payload(src, BLOCKSIZE)) else f
    ensures free' == free - if RoomToAppend(k, free) then FileCost(k) else 0
  {
    AppendExactCondition(f, k, test, clamp, free);
    ReachNext(k, free);
    assert EndOfWrite(|f.data|, Offset(k), BLOCKSIZE) == Offset(k + 1);
    assert EndOfWrite(|f.data|, Offset(k), 0) == Offset(k);
    WrittenAtEnd(clamp, f.data, Payload(src, BLOCKSIZE), |f'.data|);
    if RoomToAppend(k, free) {
      FileSizeStep(k, k + 1);
      BlocksForWhole(k + 1);
    }
  }

  lemma {:induction false} WrittenAtEnd(clamp: Clamp, was: seq<Byte>, bytes: seq<Byte>, newsize: nat)
    ensures newsize == |was| + |bytes| ==> Written(clamp, was, |was|, bytes, newsize) == was + bytes
    ensures newsize == |was| && |bytes| > 0 ==> Written(clamp, was, |was|, bytes, newsize) == was
  {
  }

  /** A write within the file always succeeds. */
  lemma {:induction false} Replaced(f: File, f': File, pos: nat, src: Source, size: nat, test: ReleaseTest,
                                    clamp: Clamp, free: nat, free': nat)
    requires f.File? && pos + size <= |f.data|
    requires WriteDone(f, f', pos, size, src, test, clamp, free, free')
    ensures WriteEnds(f, pos, size, test, clamp, free) == Done(size) && free' == free
    ensures f' == f.(data := Overlaid(f.data, pos, Payload(src, size)))
  {
    assert EndOfWrite(|f.data|, pos, size) == pos + size && EndOfWrite(|f.data|, pos, 0) == pos;
  }

  // ----- what a file determines -----

  lemma {:induction false} EndsWithZero(blocks: seq<DirBlock>, c: Contents, self: int)
    requires Sound(blocks, c, self, true)
    ensures |blocks| == 1 && Storable(blocks[0]) && BlockBytes(blocks[0])[BLOCKSIZE - 1] == 0
  {
    PackedAt(blocks, c, 0);
    PackedStorable(blocks[0], c[0]);
    TwoStrings(c[0]);
    assert blocks[0].names[NAMESPACE - 1] == NUL by {
      assert Look(0);
    }
    LastByteZero(blocks[0]);
  }

  /** The bytes read at a multiple of the block size, with a zero for one that is missing, are those of the
      block. */
  lemma {:induction false} BlockSeen(blocks: seq<DirBlock>, c: Contents, self: int, crippled: bool, p: nat,
                                     bytes: seq<Byte>)
    requires Sound(blocks, c, self, crippled) && p < |blocks|
    requires bytes == Clipped(DirBytes(blocks, crippled), Offset(p), BLOCKSIZE) + (if crippled then [0] else [])
    ensures |bytes| == BLOCKSIZE && BlockIn(bytes) == blocks[p]
  {
    var b := blocks[p];
    var whole, read := BlockBytes(b), Clipped(DirBytes(blocks, crippled), Offset(p), BLOCKSIZE);
    BlockRead(blocks, crippled, p);
    if crippled {
      EndsWithZero(blocks, c, self);
      AllButLast(whole, bytes);
    } else {
      assert bytes == read == whole;
    }
    PackedAt(blocks, c, p);
    PackedStorable(b, c[p]);
    BlockBack(b);
  }

  lemma {:induction false} AllButLast(whole: seq<Byte>, bytes: seq<Byte>)
    requires |whole| == BLOCKSIZE && whole[BLOCKSIZE - 1] == 0 && bytes == whole[..BLOCKSIZE - 1] + [0]
    ensures bytes == whole
  {
    assert whole == whole[..BLOCKSIZE - 1] + [whole[BLOCKSIZE - 1]];
  }

  lemma {:induction false} SameLength(n: nat, m: nat, crippled: bool, crippled': bool)
    requires n > 0 && m > 0 && (crippled ==> n == 1) && (crippled' ==> m == 1)
    requires Offset(n) - (if crippled then 1 else 0) == Offset(m) - if crippled' then 1 else 0
    ensures n == m && crippled == crippled'
  {
    assert Offset(0) == 0 && Offset(1) == BLOCKSIZE;
    OffsetMono(1, n);
    OffsetMono(1, m);
    var lo, hi := if n < m then n else m, if n < m then m else n;
    OffsetMono(lo, hi);
    assert Offset(lo + 1) == Offset(lo) + BLOCKSIZE;
  }

  /** The bytes of its file determine a directory: its blocks, its entries, and whether it was destroyed. */
  lemma {:induction false} FileDetermines(blocks: seq<DirBlock>, c: Contents, self: int, crippled: bool,
                                          blocks': seq<DirBlock>, c': Contents, self': int, crippled': bool)
    requires Sound(blocks, c, self, crippled) && Sound(blocks', c', self', crippled')
    requires DirBytes(blocks, crippled) == DirBytes(blocks', crippled')
    ensures blocks' == blocks && c' == c && self' == self && crippled' == crippled
  {
    SameLength(|blocks|, |blocks'|, crippled, crippled');
    forall p | 0 <= p < |blocks| ensures blocks'[p] == blocks[p] && c'[p] == c[p] {
      var bytes := Clipped(DirBytes(blocks, crippled), Offset(p), BLOCKSIZE) + if crippled then [0] else [];
      BlockSeen(blocks, c, self, crippled, p, bytes);
      BlockSeen(blocks', c', self', crippled', p, bytes);
      PackedAt(blocks, c, p);
      PackedAt(blocks', c', p);
      PackedUnique(blocks[p], c[p], c'[p]);
    }
    assert c'[0][1] == c[0][1];
  }

  // ----- the calls into the inode layer -----

  lemma {:induction false} FileFits(img: Image, v: View, j: nat)
    requires FsOk(img, v) && j < |v.entries| && FilesOf(img, v.entries)[j].File?
    ensures v.entries[j] >= 0 && FilesOf(img, v.entries)[j] == FileOf(img, v.entries[j])
    ensures |FilesOf(img, v.entries)[j].data| <= MAX_FILESIZE
  {
    Loadable(img, v, j);
  }

  lemma {:induction false} BlocksFit(k: nat)
    requires Offset(k) <= MAX_FILESIZE
    ensures k <= UNREACHABLE
  {
    if k > UNREACHABLE {
      OffsetMono(UNREACHABLE, k);
    }
  }

  /** The file of `inumber` has been given other bytes; nothing else has changed but the list of free
      blocks, if there are more of them or fewer. */
  ghost predicate FileGiven(before: Image, v: View, after: Image, v': View, inumber: nat, data: seq<Byte>) {
    && |after| == |before| && DataStart(after) == DataStart(before) && v' == v.(chain := v'.chain, free := v'.free)
    && FsOk(after, v') && inumber < |v.entries| && FilesOf(before, v.entries)[inumber].File?
    && FilesOf(after, v'.entries)
       == FilesOf(before, v.entries)[inumber := FilesOf(before, v.entries)[inumber].(data := data)]
    && OthersKept(TreesOf(before, v.entries), TreesOf(after, v'.entries), inumber)
  }

  /** Writes a block of a directory, or adds one. */
  method StoreBlock(d: Disk, inumber: nat, ghost blocks: seq<DirBlock>, p: nat, b: DirBlock, test: ReleaseTest,
                    clamp: Clamp)
    returns (outcome: Outcome)
    requires FsOk(d.Image(), d.view) && inumber < |d.view.entries| && p <= |blocks|
    requires var f := FilesOf(d.Image(), d.view.entries)[inumber]; f.File? && f.data == Laid(blocks)
    modifies d`view, d.data
    ensures outcome == if p < |blocks| then Done(BLOCKSIZE) else AppendEnds(p, test, |old(d.view).free|)
    ensures FsOk(d.Image(), d.view) <==> outcome != LiveBlockReleased
    ensures outcome.Done? ==>
      && FileGiven(old(d.Image()), old(d.view), d.Image(), d.view, inumber,
                   if outcome == Done(BLOCKSIZE) then Laid(WithBlock(blocks, p, b)) else Laid(blocks))
      && |d.view.free| == |old(d.view).free| - if p == |blocks| && outcome == Done(BLOCKSIZE) then FileCost(p) else 0
  {
    ghost var f, free := FilesOf(d.Image(), d.view.entries)[inumber], |d.view.free|;
    FileFits(d.Image(), d.view, inumber);
    BlocksFit(|blocks|);
    OffsetIs(p);
    var bytes := BlockBytes(b);
    var data := new Byte[BLOCKSIZE](i requires 0 <= i < BLOCKSIZE => bytes[i]);
    assert data[..] == bytes;
    ghost var src := SourceOf(data);
    assert Payload(src, BLOCKSIZE) == bytes;
    outcome := InodeWrite(d, inumber, p * BLOCKSIZE, data, BLOCKSIZE, test, clamp);
    ghost var f' := FilesOf(d.Image(), d.view.entries)[inumber];
    StoredBlock(f, f', blocks, p, b, src, test, clamp, free, |d.view.free|, outcome);
  }

  lemma {:induction false} StoredBlock(f: File, f': File, blocks: seq<DirBlock>, p: nat, b: DirBlock, src: Source,
                                       test: ReleaseTest, clamp: Clamp, free: nat, free': nat, outcome: Outcome)
    requires f.File? && f.data == Laid(blocks) && p <= |blocks| <= UNREACHABLE
    requires Payload(src, BLOCKSIZE) == BlockBytes(b)
    requires outcome == WriteEnds(f, Offset(p), BLOCKSIZE, test, clamp, free)
    requires outcome != LiveBlockReleased ==> WriteDone(f, f', Offset(p), BLOCKSIZE, src, test, clamp, free, free')
    ensures outcome == if p < |blocks| then Done(BLOCKSIZE) else AppendEnds(p, test, free)
    ensures outcome.Done? ==>
      && f' == f.(data := if outcome == Done(BLOCKSIZE) then Laid(WithBlock(blocks, p, b)) else Laid(blocks))
      && free' == free - if p == |blocks| && outcome == Done(BLOCKSIZE) then FileCost(p) else 0
  {
    if p < |blocks| {
      OffsetMono(p, |blocks|);
      assert !WriteHazard(f, Offset(p), BLOCKSIZE, test, free);
      Replaced(f, f', Offset(p), src, BLOCKSIZE, test, clamp, free, free');
      BlockWritten(blocks, p, b);
    } else {
      AppendExactCondition(f, p, test, clamp, free);
      if outcome.Done? {
        Appended(f, f', p, src, test, clamp, free, free');
        LaidMore(blocks, b);
      }
    }
  }

  /** Cuts a directory's file. */
  method CutFile(d: Disk, inumber: nat, size: nat, test: ReleaseTest, clamp: Clamp) returns (outcome: Outcome)
    requires FsOk(d.Image(), d.view) && inumber < |d.view.entries|
    requires var f := FilesOf(d.Image(), d.view.entries)[inumber]; f.File? && size <= |f.data|
    modifies d`view, d.data
    ensures outcome == Done(size)
    ensures FileGiven(old(d.Image()), old(d.view), d.Image(), d.view, inumber,
                      Padded(FilesOf(old(d.Image()), old(d.view).entries)[inumber].data, size))
    ensures |d.view.free| + FileSize(BlocksFor(size))
         == |old(d.view).free| + FileSize(BlocksFor(|FilesOf(old(d.Image()), old(d.view).entries)[inumber].data|))
  {
    ghost var f, free := FilesOf(d.Image(), d.view.entries)[inumber], |d.view.free|;
    FileFits(d.Image(), d.view, inumber);
    CutEnds(f, size, test, free);
    outcome := InodeTruncate(d, inumber, size, test, clamp);
  }

  lemma {:induction false} CutEnds(f: File, size: nat, test: ReleaseTest, free: nat)
    requires f.File? && size <= |f.data| <= MAX_FILESIZE
    ensures TruncateEnds(f, size, test, free) == Done(size) && ReachedSize(|f.data|, size, free) == size
  {
    BlocksForMono(size, |f.data|);
    ReachBack(|f.data|, size, free);
  }

  // ----- directories on a disk -----

  /** The file holds the directory. */
  ghost predicate Stores(f: File, dir: Directory)
    reads dir
  {
    dir.Valid() && f.File? && f.isDir == dir.isDir && (dir.isDir ==> f.data == DirBytes(dir.blocks, dir.crippled))
  }

  ghost predicate Keeps(img: Image, v: View, inumber: nat, dir: Directory)
    reads dir
  {
    FsOk(img, v) && inumber < |v.entries| && Stores(FilesOf(img, v.entries)[inumber], dir)
  }

  /** Nothing but the bytes of file `j` differs. */
  ghost predicate DataOnly(before: seq<File>, after: seq<File>, j: nat) {
    && j < |before| == |after| && before[j].File? && after[j].File?
    && after == before[j := before[j].(data := after[j].data)]
  }

  /** The file has been given the bytes of a directory. */
  lemma GivenKept(before: Image, v: View, after: Image, v': View, inumber: nat, dir: Directory, data: seq<Byte>)
    requires FileGiven(before, v, after, v', inumber, data) && dir.Valid() && dir.isDir
    requires FilesOf(before, v.entries)[inumber].isDir && data == DirBytes(dir.blocks, dir.crippled)
    ensures Keeps(after, v', inumber, dir) && DataOnly(FilesOf(before, v.entries), FilesOf(after, v'.entries), inumber)
  {
  }

  /** The entry needs a new block. */
  ghost predicate Appends(dir: Directory, name: Name)
    reads dir
  {
    InsertResult(dir.isDir, dir.crippled, dir.Map(), name,
                 exists p :: 0 <= p < |dir.contents| && Fits(dir.contents[p], name)) == ENOSPC
  }

  /** dir_insert. The entry is added if it fits into a block, or if there are free blocks for a new
      one. If there are not, nothing has changed, unless a live indirect block of the directory has been
      released. */
  method InsertStored(d: Disk, inumber: nat, dir: Directory, name: Name, target: int, test: ReleaseTest, clamp: Clamp)
    returns (r: int, lost: bool)
    requires Keeps(d.Image(), d.view, inumber, dir) && CString(name) && GoodNumber(target)
    modifies d`view, d.data, dir
    ensures lost <==>
      old(Appends(dir, name)) && AppendEnds(|old(dir.blocks)|, test, |old(d.view).free|) == LiveBlockReleased
    ensures FsOk(d.Image(), d.view) <==> !lost
    ensures !lost ==>
      && Keeps(d.Image(), d.view, inumber, dir)
      && r == InsertResult(dir.isDir, dir.crippled, old(dir.Map()), name,
                           !old(Appends(dir, name)) || RoomToAppend(|old(dir.blocks)|, |old(d.view).free|))
      && DataOnly(FilesOf(old(d.Image()), old(d.view).entries), FilesOf(d.Image(), d.view.entries), inumber)
      && |d.view.free|
         == |old(d.view).free| - if old(Appends(dir, name)) && r == 0 then FileCost(|old(dir.blocks)|) else 0
    ensures !lost && r == 0 ==>
      dir.Map() == old(dir.Map())[name := target] && AddedTo(old(dir.contents), dir.contents, Entry(name, target))
    ensures lost || r != 0 ==> dir.blocks == old(dir.blocks) && dir.contents == old(dir.contents)
    ensures dir.crippled == old(dir.crippled)
    ensures !lost && r != 0 ==> FilesOf(d.Image(), d.view.entries) == FilesOf(old(d.Image()), old(d.view).entries)
    ensures !lost && !dir.isDir ==> r == ENOTDIR
    ensures !lost && dir.isDir && dir.crippled ==> r == ENOENT
    ensures !lost && dir.isDir && !dir.crippled && |name| > NAME_MAX ==> r == ENAMETOOLONG
    ensures !lost && dir.isDir && !dir.crippled && |name| <= NAME_MAX && name in old(dir.Map()) ==> r == EEXIST
    ensures !lost && dir.isDir && !dir.crippled && |name| <= NAME_MAX && name !in old(dir.Map()) ==>
      r == 0 || r == ENOSPC
  {
    var p, b;
    r, p, b := dir.Plan(name, target);
    if r != 0 {
      assert !Appends(dir, name);
      return r, false;
    }
    assert Appends(dir, name) <==> p == |dir.blocks|;
    r, lost := StorePlanned(d, inumber, dir, p, b, Entry(name, target), test, clamp);
  }

  /** The end of the call: the block is written. */
  method StorePlanned(d: Disk, inumber: nat, dir: Directory, p: nat, b: DirBlock, ghost e: Entry, test: ReleaseTest,
                      clamp: Clamp)
    returns (r: int, lost: bool)
    requires Keeps(d.Image(), d.view, inumber, dir) && dir.Planned(p, b, e)
    modifies d`view, d.data, dir
    ensures lost <==> p == |old(dir.blocks)| && AppendEnds(p, test, |old(d.view).free|) == LiveBlockReleased
    ensures FsOk(d.Image(), d.view) <==> !lost
    ensures !lost ==>
      && Keeps(d.Image(), d.view, inumber, dir)
      && r == (if p < |old(dir.blocks)| || RoomToAppend(p, |old(d.view).free|) then 0 else ENOSPC)
      && DataOnly(FilesOf(old(d.Image()), old(d.view).entries), FilesOf(d.Image(), d.view.entries), inumber)
      && |d.view.free| == |old(d.view).free| - if p == |old(dir.blocks)| && r == 0 then FileCost(p) else 0
    ensures !lost && r == 0 ==>
      dir.Map() == old(dir.Map())[e.name := e.inode] && AddedTo(old(dir.contents), dir.contents, e)
    ensures lost || r != 0 ==> dir.blocks == old(dir.blocks) && dir.contents == old(dir.contents)
    ensures dir.crippled == old(dir.crippled)
    ensures !lost && r != 0 ==> FilesOf(d.Image(), d.view.entries) == FilesOf(old(d.Image()), old(d.view).entries)
  {
    ghost var img0, v0 := d.Image(), d.view;
    var outcome := StoreBlock(d, inumber, dir.blocks, p, b, test, clamp);
    if outcome == LiveBlockReleased {
      return ENOSPC, true;
    }
    if outcome != Done(BLOCKSIZE) {
      assert FilesOf(d.Image(), d.view.entries) == FilesOf(img0, v0.entries);
      return ENOSPC, false;
    }
    dir.Commit(p, b, e);
    GivenKept(img0, v0, d.Image(), d.view, inumber, dir, Laid(dir.blocks));
    return 0, false;
  }

  /** Brings the file in line with a change that one call can make. */
  method Save(d: Disk, inumber: nat, was: seq<DirBlock>, now: seq<DirBlock>, test: ReleaseTest, clamp: Clamp)
    requires FsOk(d.Image(), d.view) && inumber < |d.view.entries| && OneCall(was, now)
    requires var f := FilesOf(d.Image(), d.view.entries)[inumber]; f.File? && f.data == Laid(was)
    modifies d`view, d.data
    ensures FileGiven(old(d.Image()), old(d.view), d.Image(), d.view, inumber, Laid(now))
    ensures |d.view.free| + FileSize(|now|) == |old(d.view).free| + FileSize(|was|)
  {
    if |now| < |was| {
      OffsetIs(|now|);
      BlocksForWhole(|now|);
      BlocksForWhole(|was|);
      BlocksCut(was, |now|);
      var cut := CutFile(d, inumber, |now| * BLOCKSIZE, test, clamp);
    } else {
      var p: nat :| p < |was| && Rewritten(was, now, p);
      var written := StoreBlock(d, inumber, was, p, now[p], test, clamp);
      assert written == Done(BLOCKSIZE);
    }
  }

  /** dir_remove: the write, or the cut, that it ends with always succeeds. */
  method RemoveStored(d: Disk, inumber: nat, dir: Directory, name: Name, test: ReleaseTest,
                      clamp: Clamp) returns (r: int)
    requires Keeps(d.Image(), d.view, inumber, dir)
    modifies d`view, d.data, dir
    ensures Keeps(d.Image(), d.view, inumber, dir)
    ensures r == RemoveResult(dir.isDir, dir.crippled, old(dir.Map()), name) && dir.crippled == old(dir.crippled)
    ensures dir.Map() == if r >= 0 then old(dir.Map()) - {name} else old(dir.Map())
    ensures r < 0 ==> d.Image() == old(d.Image()) && d.view == old(d.view)
    ensures r >= 0 ==>
      && |d.view.free| + FileSize(|dir.blocks|) == |old(d.view).free| + FileSize(|old(dir.blocks)|)
      && exists p, i, empties :: TakenFrom(old(dir.contents), dir.contents, p, i, empties, name)
    ensures DataOnly(FilesOf(old(d.Image()), old(d.view).entries), FilesOf(d.Image(), d.view.entries), inumber)
    ensures !dir.isDir ==> r == ENOTDIR
    ensures dir.isDir && dir.crippled ==> r == ENOENT
    ensures dir.isDir && !dir.crippled && |name| > NAME_MAX ==> r == ENAMETOOLONG
    ensures dir.isDir && !dir.crippled && name == DOT ==> r == EINVAL
    ensures dir.isDir && !dir.crippled && name == DOTDOT ==> r == ENOTEMPTY
    ensures dir.isDir && !dir.crippled && |name| <= NAME_MAX && name != DOT && name != DOTDOT ==>
      r == if name in old(dir.Map()) then old(dir.Map())[name] else ENOENT
  {
    var was := dir.blocks;
    r := dir.Remove(name);
    if r >= 0 {
      Save(d, inumber, was, dir.blocks, test, clamp);
    }
  }

  /** dir_reparent. */
  method ReparentStored(d: Disk, inumber: nat, dir: Directory, newParent: int, test: ReleaseTest,
                        clamp: Clamp) returns (r: int)
    requires Keeps(d.Image(), d.view, inumber, dir) && GoodNumber(newParent)
    modifies d`view, d.data, dir
    ensures Keeps(d.Image(), d.view, inumber, dir)
    ensures r == ReparentResult(dir.isDir, dir.crippled) && dir.crippled == old(dir.crippled)
    ensures dir.Map() == if r == 0 then old(dir.Map())[DOTDOT := newParent] else old(dir.Map())
    ensures r < 0 ==> d.Image() == old(d.Image()) && d.view == old(d.view)
    ensures DataOnly(FilesOf(old(d.Image()), old(d.view).entries), FilesOf(d.Image(), d.view.entries), inumber)
    ensures r == if !dir.isDir then ENOTDIR else if dir.crippled then ENOENT else 0
  {
    var was := dir.blocks;
    r := dir.Reparent(newParent);
    if r == 0 {
      assert Rewritten(was, dir.blocks, 0);
      Save(d, inumber, was, dir.blocks, test, clamp);
    }
  }

  /** dir_destroy. */
  method DestroyStored(d: Disk, inumber: nat, dir: Directory, test: ReleaseTest, clamp: Clamp) returns (r: int)
    requires Keeps(d.Image(), d.view, inumber, dir)
    modifies d`view, d.data, dir
    ensures Keeps(d.Image(), d.view, inumber, dir)
    ensures r == DestroyResult(dir.isDir, old(dir.crippled), dir.Map()) && dir.Map() == old(dir.Map())
    ensures dir.crippled == (old(dir.crippled) || r == 0)
    ensures r < 0 ==> d.Image() == old(d.Image()) && d.view == old(d.view)
    ensures DataOnly(FilesOf(old(d.Image()), old(d.view).entries), FilesOf(d.Image(), d.view.entries), inumber)
    ensures !dir.isDir ==> r == ENOTDIR
    ensures dir.isDir && old(dir.crippled) ==> r == ENOENT
    ensures dir.isDir && !old(dir.crippled) ==> r == if OnlyDotted(dir.Map()) then 0 else ENOTEMPTY
  {
    ghost var img0, v0 := d.Image(), d.view;
    r := dir.Destroy();
    if r == 0 {
      CutLastByte(d, inumber, dir.blocks, test, clamp);
      GivenKept(img0, v0, d.Image(), d.view, inumber, dir, DirBytes(dir.blocks, true));
    }
  }

  /** The one block of a directory loses its last byte. */
  method CutLastByte(d: Disk, inumber: nat, blocks: seq<DirBlock>, test: ReleaseTest, clamp: Clamp)
    requires FsOk(d.Image(), d.view) && inumber < |d.view.entries| && |blocks| == 1
    requires var f := FilesOf(d.Image(), d.view.entries)[inumber]; f.File? && f.data == Laid(blocks)
    modifies d`view, d.data
    ensures FileGiven(old(d.Image()), old(d.view), d.Image(), d.view, inumber, DirBytes(blocks, true))
  {
    LastByteCut(blocks);
    var cut := CutFile(d, inumber, BLOCKSIZE - 1, test, clamp);
    assert cut == Done(BLOCKSIZE - 1);
  }

  lemma {:induction false} LastByteCut(blocks: seq<DirBlock>)
    requires |blocks| == 1
    ensures |Laid(blocks)| == BLOCKSIZE && Padded(Laid(blocks), BLOCKSIZE - 1) == DirBytes(blocks, true)
  {
    assert Offset(0) == 0 && Offset(1) == BLOCKSIZE;
  }

  // ----- a name removed, and entered again -----

  /** The entry is the only one of a block that is not the last; no other block has room for its name, and there
      are no free blocks for another. */
  ghost predicate Stuck(c: Contents, p: int, name: Name, free: nat) {
    && 0 <= p < |c| - 1 && |c[p]| == 1 && c[p][0].name == name && !RoomToAppend(|c|, free)
    && forall q :: 0 <= q < |c| && q != p ==> !Fits(c[q], name)
  }

  /** Where an entry has been taken from there is room for one of the same name, unless the block is left empty
      and stays; if blocks have been cut off, there are free blocks for another. */
  lemma {:induction false} ReinsertExactCondition(blocks: seq<DirBlock>, c: Contents, c': Contents, p: int, i: int,
                                                  empties: int, name: Name, free: nat, free': nat)
    requires AllPacked(blocks, c) && TakenFrom(c, c', p, i, empties, name) && |c| <= UNREACHABLE
    requires free' + FileSize(|c'|) == free + FileSize(|c|)
    ensures FitsIn(c', name) || RoomToAppend(|c'|, free') <==> !Stuck(c, p, name, free)
  {
    if p == |c| - 1 && |c[p]| == 1 {
      var n := |c'|;
      SpendIs(n, |c|);
      assert Spend(n, |c|) >= FileCost(n);
    } else if |c[p]| > 1 {
      StillFits(blocks[p], c[p], i, name);
      PackedAt(blocks, c, p);
      assert Fits(c'[p], name);
    } else {
      assert c'[p] == [] && |Strings(c'[p])| == 0;
      forall q | 0 <= q < |c| && q != p ensures c'[q] == c[q] {
      }
    }
  }

  lemma {:induction false} StillFits(b: DirBlock, ents: seq<Entry>, i: nat, name: Name)
    requires i < |ents| && |ents| > 1 && ents[i].name == name
    ensures Packed(b, ents) ==> Fits(ents[..i] + ents[i + 1..], name)
  {
    var rest := ents[..i] + ents[i + 1..];
    assert Look(0);
    StringsAt(ents, i);
    StringsConcat(ents[..i], ents[i + 1..]);
    var j := if i > 0 then 0 else 1;
    StringsAt(rest, 0);
  }

  lemma {:induction false} OnlyThere(c: Contents, p: int, i: int, name: Name, free: nat)
    requires Unique(c) && At(c, p, i) && c[p][i].name == name
    ensures (exists q :: Stuck(c, q, name, free)) <==> Stuck(c, p, name, free)
  {
    assert Look(0);
    forall q | Stuck(c, q, name, free) ensures q == p {
      assert At(c, q, 0);
    }
  }

  /** There is room for the name in a block of the directory. */
  ghost predicate FitsIn(c: Contents, name: Name) {
    exists q :: 0 <= q < |c| && Fits(c[q], name)
  }

  /** At a hazard there is no room. */
  lemma {:induction false} HazardIsFull(k: nat, test: ReleaseTest, free: nat)
    ensures AppendEnds(k, test, free) == LiveBlockReleased ==> !RoomToAppend(k, free)
  {
    if k < UNREACHABLE {
      FileCostIs(k, SlotOf(k), InSlot(k, SlotOf(k)), test, free);
    }
  }

  /** Entering a new name fails exactly if no block has room for it and there are no free blocks for another. */
  method InsertNew(d: Disk, inumber: nat, dir: Directory, name: Name, target: int, test: ReleaseTest, clamp: Clamp)
    returns (r: int, lost: bool)
    requires Keeps(d.Image(), d.view, inumber, dir) && dir.isDir && !dir.crippled && GoodName(name)
    requires GoodNumber(target)
    requires name !in dir.Map()
    modifies d`view, d.data, dir
    ensures lost || r == ENOSPC <==>
      !FitsIn(old(dir.contents), name) && !RoomToAppend(|old(dir.blocks)|, |old(d.view).free|)
    ensures !lost && r != ENOSPC ==> r == 0 && dir.Map() == old(dir.Map())[name := target]
    ensures lost || r == ENOSPC ==> dir.Map() == old(dir.Map())
  {
    ghost var k, free := |dir.blocks|, |d.view.free|;
    assert Appends(dir, name) <==> !FitsIn(dir.contents, name);
    HazardIsFull(k, test, free);
    r, lost := InsertStored(d, inumber, dir, name, target, test, clamp);
  }

  lemma {:induction false} StuckExactly(blocks: seq<DirBlock>, c: Contents, c': Contents, self: int, name: Name,
                                        free: nat, free': nat)
    requires Sound(blocks, c, self, false) && |c| <= UNREACHABLE && free' + FileSize(|c'|) == free + FileSize(|c|)
    requires exists p, i, empties :: TakenFrom(c, c', p, i, empties, name)
    ensures FitsIn(c', name) || RoomToAppend(|c'|, free') <==> !exists p :: Stuck(c, p, name, free)
  {
    var p, i, empties :| TakenFrom(c, c', p, i, empties, name);
    OnlyThere(c, p, i, name, free);
    ReinsertExactCondition(blocks, c, c', p, i, empties, name, free, free');
  }

  /** Removing an entry and entering another one with the same name, as a rename over a target does if the target
      is not freed in between: the second half fails exactly if the entry is stuck, and then the name is gone. */
  method Reinsert(d: Disk, inumber: nat, dir: Directory, name: Name, target: int, test: ReleaseTest, clamp: Clamp)
    returns (r: int, lost: bool)
    requires Keeps(d.Image(), d.view, inumber, dir) && dir.isDir && !dir.crippled && GoodName(name)
    requires GoodNumber(target)
    requires name in dir.Map() && name != DOT && name != DOTDOT && dir.Map()[name] >= 0
    modifies d`view, d.data, dir
    ensures lost || r == ENOSPC <==> exists p :: Stuck(old(dir.contents), p, name, |old(d.view).free|)
    ensures !lost && r != ENOSPC ==> r == 0 && dir.Map() == old(dir.Map())[name := target]
    ensures lost || r == ENOSPC ==> dir.Map() == old(dir.Map()) - {name}
  {
    ghost var c, blocks, m, free := dir.contents, dir.blocks, dir.Map(), |d.view.free|;
    FileFits(d.Image(), d.view, inumber);
    BlocksFit(|blocks|);
    var removed := RemoveStored(d, inumber, dir, name, test, clamp);
    StuckExactly(blocks, c, dir.contents, dir.self, name, free, |d.view.free|);
    r, lost := InsertNew(d, inumber, dir, name, target, test, clamp);
    BoundAgain(m, name, target);
  }

  lemma {:induction false} BoundAgain(m: map<Name, int>, name: Name, target: int)
    ensures (m - {name})[name := target] == m[name := target]
  {
  }

  // ----- reading -----

  /** File `inumber` holds this directory. */
  ghost predicate HeldAs(f: File, inumber: int, blocks: seq<DirBlock>, c: Contents, crippled: bool) {
    forall u :: Look(u) ==>
      f.File? && f.isDir && f.data == DirBytes(blocks, crippled) && Sound(blocks, c, inumber, crippled)
  }

  lemma {:induction false} HeldMeans(f: File, inumber: int, blocks: seq<DirBlock>, c: Contents, crippled: bool)
    requires HeldAs(f, inumber, blocks, c, crippled)
    ensures f.File? && f.isDir && f.data == DirBytes(blocks, crippled) && Sound(blocks, c, inumber, crippled)
  {
    assert Look(0);
  }

  /** What a read of block `p` finds. */
  ghost predicate Found(blocks: seq<DirBlock>, crippled: bool, p: nat, r: int, b: DirBlock) {
    && r == (if p >= |blocks| then 0 else if crippled then BLOCKSIZE - 1 else BLOCKSIZE)
    && (p < |blocks| ==> b == blocks[p])
  }

  /** Reads one block of a directory. */
  method ReadBlockOf(d: Disk, inumber: nat, p: nat, ghost blocks: seq<DirBlock>, ghost c: Contents,
                     ghost crippled: bool)
    returns (r: int, b: DirBlock)
    requires FsOk(d.Image(), d.view) && inumber < |d.view.entries|
    requires HeldAs(FilesOf(d.Image(), d.view.entries)[inumber], inumber, blocks, c, crippled)
    modifies d.data
    ensures d.Image() == old(d.Image()) && Found(blocks, crippled, p, r, b)
  {
    HeldMeans(FilesOf(d.Image(), d.view.entries)[inumber], inumber, blocks, c, crippled);
    var data := new Byte[BLOCKSIZE](_ => 0);
    ghost var was := data[..];
    OffsetIs(p);
    r := InodeRead(d, inumber, p * BLOCKSIZE, data, BLOCKSIZE);
    b := BlockIn(data[..]);
    BlockRead(blocks, crippled, p);
    if p < |blocks| {
      assert was[r..] == if crippled then [0] else [];
      BlockSeen(blocks, c, inumber, crippled, p, data[..]);
    }
  }

  /** Reads all of them; `cut` says that the last was not whole. */
  method ReadBlocks(d: Disk, inumber: nat, ghost blocks: seq<DirBlock>, ghost c: Contents, ghost crippled: bool)
    returns (got: seq<DirBlock>, cut: bool)
    requires FsOk(d.Image(), d.view) && inumber < |d.view.entries| && |blocks| > 0
    requires HeldAs(FilesOf(d.Image(), d.view.entries)[inumber], inumber, blocks, c, crippled)
    modifies d.data
    ensures d.Image() == old(d.Image()) && got == blocks && cut == crippled
  {
    got, cut := [], false;
    var r, b := ReadBlockOf(d, inumber, 0, blocks, c, crippled);
    while r > 0
      invariant d.Image() == old(d.Image()) && |got| <= |blocks| && got == blocks[..|got|]
      invariant Found(blocks, crippled, |got|, r, b) && (|got| > 0 ==> cut == crippled)
      decreases |blocks| - |got|
    {
      got, cut := got + [b], r < BLOCKSIZE;
      r, b := ReadBlockOf(d, inumber, |got|, blocks, c, crippled);
    }
  }

  /** Reads a directory from its file. */
  method ReadDir(d: Disk, inumber: nat, ghost blocks: seq<DirBlock>, ghost c: Contents, ghost crippled: bool)
    returns (dir: Directory)
    requires FsOk(d.Image(), d.view) && inumber < |d.view.entries|
    requires HeldAs(FilesOf(d.Image(), d.view.entries)[inumber], inumber, blocks, c, crippled)
    modifies d.data
    ensures d.Image() == old(d.Image()) && fresh(dir) && Keeps(d.Image(), d.view, inumber, dir) && dir.isDir
    ensures dir.self == inumber && dir.blocks == blocks && dir.contents == c && dir.crippled == crippled
  {
    HeldMeans(FilesOf(d.Image(), d.view.entries)[inumber], inumber, blocks, c, crippled);
    var got, cut := ReadBlocks(d, inumber, blocks, c, crippled);
    dir := new Directory.Read(inumber, got, cut, c);
  }

  // ----- dir_create -----

  /** There are a number and a block for the inode, and blocks for the first data block. */
  ghost predicate CanCreate(v: View) {
    v.spare != [] && v.free != {} && RoomToAppend(0, |v.free| - 1)
  }

  /** The directory has got number `r`; or, if it is negative, the files, the free numbers and the free
      blocks are as before. */
  ghost predicate NewStored(before: Image, v: View, after: Image, v': View, r: int, data: seq<Byte>) {
    if r < 0 then FilesOf(after, v'.entries) == FilesOf(before, v.entries) && v'.spare == v.spare && v'.free == v.free
    else
      && r < |v.entries| && FilesOf(before, v.entries)[r] == Missing && v.spare == v'.spare + [r]
      && FilesOf(after, v'.entries) == FilesOf(before, v.entries)[r := File(true, 0, data)]
      && |v'.free| == |v.free| - 1 - FileCost(0)
  }

  /** dir_create: gets the first free number, exactly if there are blocks enough. */
  method CreateStored(d: Disk, parent: int, test: ReleaseTest, clamp: Clamp) returns (r: int, dir: Directory)
    requires FsOk(d.Image(), d.view) && GoodNumber(parent)
    modifies d`view, d.data
    ensures fresh(dir) && FsOk(d.Image(), d.view)
    ensures if CanCreate(old(d.view)) then r >= 0 else r == ENOSPC
    ensures NewStored(old(d.Image()), old(d.view), d.Image(), d.view, r, Laid(dir.blocks))
    ensures r >= 0 ==>
      && Keeps(d.Image(), d.view, r, dir) && dir.isDir && !dir.crippled && dir.self == r
      && dir.Map() == map[DOTDOT := parent, DOT := r]
  {
    ghost var img0, v0 := d.Image(), d.view;
    ghost var i := |v0.spare| - 2;
    assert SpareAt(v0.entries, v0.spare, i);
    var directory := InodeAllocate(d);
    if directory < 0 {
      dir := new Directory(parent, 0);
      FreeFollows(img0, v0, d.Image(), d.view);
      return ENOSPC, dir;
    }
    assert !ZeroHeads(d.view.spare);
    ghost var img1, v1 := d.Image(), d.view;
    dir := new Directory(parent, directory);
    var done := FillNew(d, directory, dir, test, clamp);
    r := if done then directory else ENOSPC;
    NewIsStored(img0, v0, img1, v1, d.Image(), d.view, directory, done, Laid(dir.blocks));
  }

  lemma {:induction false} NewIsStored(img0: Image, v0: View, img1: Image, v1: View, img2: Image, v2: View,
                                       directory: nat, done: bool, data: seq<Byte>)
    requires FsOk(img0, v0) && Allocated(img0, v0, img1, v1, directory) && |img1| == |img0|
    requires DataStart(img1) == DataStart(img0)
    requires Became(img1, v1, img2, v2, directory, if done then File(true, 0, data) else Missing)
    requires done ==> v2.spare == v1.spare && |v2.free| == |v1.free| - FileCost(0)
    requires !done ==> v2.spare == v1.spare + [directory] && TreesOf(img2, v2.entries)[directory] == Nil
    ensures NewStored(img0, v0, img2, v2, if done then directory else ENOSPC, data)
  {
    BecameMeans(img1, v1, img2, v2, directory, if done then File(true, 0, data) else Missing);
    if !done {
      assert TreesOf(img2, v2.entries) == TreesOf(img0, v0.entries);
      assert FilesOf(img2, v2.entries) == FilesOf(img0, v0.entries);
      FreeFollows(img0, v0, img2, v2);
    }
  }

  /** Makes an empty file without links a directory, or frees it. */
  method FillNew(d: Disk, inumber: nat, dir: Directory, test: ReleaseTest, clamp: Clamp) returns (done: bool)
    requires FsOk(d.Image(), d.view) && inumber < |d.view.entries|
    requires FilesOf(d.Image(), d.view.entries)[inumber] == EMPTY
    requires !ZeroHeads(d.view.spare) && dir.Valid() && dir.isDir && !dir.crippled && |dir.blocks| == 1
    modifies d`view, d.data
    ensures done <==> RoomToAppend(0, |old(d.view).free|)
    ensures Became(old(d.Image()), old(d.view), d.Image(), d.view, inumber,
                   if done then File(true, 0, Laid(dir.blocks)) else Missing)
    ensures done ==> d.view.spare == old(d.view).spare && |d.view.free| == |old(d.view).free| - FileCost(0)
    ensures !done ==>
      d.view.spare == old(d.view).spare + [inumber] && TreesOf(d.Image(), d.view.entries)[inumber] == Nil
  {
    ghost var img0, v0 := d.Image(), d.view;
    done := FirstWrite(d, inumber, dir.blocks[0], test, clamp);
    assert WithBlock([], 0, dir.blocks[0]) == dir.blocks;
    if !done {
      ghost var img1, v1 := d.Image(), d.view;
      BecameMeans(img0, v0, img1, v1, inumber, File(true, 0, []));
      Withdraw(d, inumber);
      BecameBoth(img0, v0, img1, v1, d.Image(), d.view, inumber, File(true, 0, []), Missing);
    }
  }

  /** Sets the mode and writes the first block, if there is room. */
  method FirstWrite(d: Disk, inumber: nat, b: DirBlock, test: ReleaseTest, clamp: Clamp) returns (done: bool)
    requires FsOk(d.Image(), d.view) && inumber < |d.view.entries|
    requires FilesOf(d.Image(), d.view.entries)[inumber] == EMPTY
    modifies d`view, d.data
    ensures done <==> RoomToAppend(0, |old(d.view).free|)
    ensures Became(old(d.Image()), old(d.view), d.Image(), d.view, inumber,
                   File(true, 0, if done then Laid(WithBlock([], 0, b)) else []))
    ensures d.view.spare == old(d.view).spare && |d.view.free| == |old(d.view).free| - if done then FileCost(0) else 0
  {
    ghost var img0, v0 := d.Image(), d.view;
    var mode := InodeChmod(d, inumber, true);
    assert mode == 0;
    ghost var img1 := d.Image();
    assert Became(img0, v0, img1, v0, inumber, File(true, 0, []));
    ReachNext(0, |d.view.free|);
    NoHazardAtNone(test, Offset(1), |d.view.free|);
    var outcome := StoreBlock(d, inumber, [], 0, b, test, clamp);
    done := outcome == Done(BLOCKSIZE);
    BecameBoth(img0, v0, img1, v0, d.Image(), d.view, inumber, File(true, 0, []),
               File(true, 0, if done then Laid(WithBlock([], 0, b)) else []));
  }
}
