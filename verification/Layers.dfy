// The steps that the path operations are made of are what refs.c and dir.c do: on one disk, with one table of
// open files, every step changes the maps of `Paths` as it says.

module Layers {
  import opened Geometry
  import opened Blocks
  import opened FreeLists
  import opened IndirectGrow
  import opened Files
  import opened Resize
  import opened SetSize
  import opened FileIO
  import opened Inodes
  import opened DirBlocks
  import opened Directories
  import opened DirStore
  import opened OpenTables
  import opened OpenFiles
  import opened Runs
  import P = Paths

  // ----- what the maps show -----

  /** Types and link counts of the files there are. */
  ghost function Infos(files: seq<File>): map<int, P.Info> {
    map i | 0 <= i < |files| && files[i].File? :: P.Info(files[i].isDir, files[i].nlinks)
  }

  /** How often each inode is open. */
  ghost function Refs(open: map<nat, Open>): map<int, nat> {
    map i: int | i >= 0 && i in open :: open[i].count
  }

  /** File `i` holds this directory. */
  ghost predicate DirHeld(fs: seq<File>, i: int, dir: P.Dir) {
    0 <= i < |fs| && exists blocks, c :: HeldAs(fs[i], i, blocks, c, dir.crippled) && dir.entries == MapOf(c)
  }

  /** Number `i` is a directory in the map exactly if it is one on the disk, and then the same one. */
  ghost predicate DirAt(fs: seq<File>, dirs: map<int, P.Dir>, i: int) {
    && (i in dirs ==> DirHeld(fs, i, dirs[i]))
    && (0 <= i < |fs| && fs[i].File? && fs[i].isDir ==> i in dirs)
  }

  ghost predicate DirsHeld(fs: seq<File>, dirs: map<int, P.Dir>) {
    forall i :: DirAt(fs, dirs, i)
  }

  /** The disk is sound, and the maps show its files and the directories stored in them. */
  ghost predicate DiskShown(d: Disk, m: P.Maps)
    reads d, d.data
  {
    Ready(d) && forall u :: Look(u) ==> m.files == Infos(OnDisk(d)) && DirsHeld(OnDisk(d), m.dirs)
  }

  /** The table is sound, and agrees with the maps. */
  ghost predicate TableShown(t: Table, m: P.Maps)
    reads t, t.buckets, t.Nodes()
  {
    t.Valid() && forall u :: Look(u) ==>
      m.open == Refs(t.open) && forall i :: i in t.open ==> i in m.files && t.open[i].nlinks == m.files[i].nlinks
  }

  ghost predicate Shown(o: OpenFiles, m: P.Maps)
    reads o.table, o.table.buckets, o.table.Nodes(), o.d, o.d.data
  {
    TableShown(o.table, m) && DiskShown(o.d, m)
  }

  lemma DiskMeans(d: Disk, m: P.Maps)
    requires DiskShown(d, m)
    ensures Ready(d) && m.files == Infos(OnDisk(d)) && DirsHeld(OnDisk(d), m.dirs)
  {
    assert Look(0);
  }

  lemma ShownMeans(o: OpenFiles, m: P.Maps)
    requires Shown(o, m)
    ensures o.Valid() && o.table.Valid() && Ready(o.d) && Agrees(o.table.open, OnDisk(o.d))
    ensures m.files == Infos(OnDisk(o.d)) && m.open == Refs(o.table.open) && DirsHeld(OnDisk(o.d), m.dirs)
  {
    assert Look(0);
  }

  lemma ReadyMeans(d: Disk)
    requires Ready(d)
    ensures FsOk(d.Image(), d.view)
  {
    assert Look(0);
  }

  /** The maps have changed as table and disk have. */
  lemma NowShown(o: OpenFiles, m: P.Maps)
    requires o.table.Valid() && Ready(o.d) && Agrees(o.table.open, OnDisk(o.d))
    requires m.files == Infos(OnDisk(o.d)) && m.open == Refs(o.table.open) && DirsHeld(OnDisk(o.d), m.dirs)
    ensures Shown(o, m)
  {
    assert Look(0);
  }

  lemma {:induction false} DirsChanged(fs: seq<File>, fs': seq<File>, dirs: map<int, P.Dir>, dirs': map<int, P.Dir>,
                                       i: int)
    requires DirsHeld(fs, dirs) && |fs'| == |fs| && forall j :: 0 <= j < |fs| && j != i ==> fs'[j] == fs[j]
    requires forall j :: j != i ==> (j in dirs' <==> j in dirs) && (j in dirs ==> dirs'[j] == dirs[j])
    requires DirAt(fs', dirs', i)
    ensures DirsHeld(fs', dirs')
  {
    forall j ensures DirAt(fs', dirs', j) {
      assert DirAt(fs, dirs, j);
    }
  }

  /** Link counts do not matter to directories. */
  lemma {:induction false} DirsRelinked(fs: seq<File>, i: nat, nlinks: nat, dirs: map<int, P.Dir>)
    requires DirsHeld(fs, dirs)
    ensures DirsHeld(Relinked(fs, i, nlinks), dirs)
  {
    var fs' := Relinked(fs, i, nlinks);
    assert DirAt(fs, dirs, i);
    if i in dirs {
      var blocks, c :| HeldAs(fs[i], i, blocks, c, dirs[i].crippled) && dirs[i].entries == MapOf(c);
      HeldMeans(fs[i], i, blocks, c, dirs[i].crippled);
      assert HeldAs(fs'[i], i, blocks, c, dirs[i].crippled);
    }
    DirsChanged(fs, fs', dirs, dirs, i);
  }

  lemma DirStored(fs: seq<File>, i: int, dir: Directory)
    requires 0 <= i < |fs| && Stores(fs[i], dir) && dir.isDir && dir.self == i
    ensures DirHeld(fs, i, P.Dir(dir.Map(), dir.crippled))
  {
    assert HeldAs(fs[i], i, dir.blocks, dir.contents, dir.crippled);
  }

  lemma {:induction false} InfosKept(before: seq<File>, after: seq<File>, i: nat)
    requires DataOnly(before, after, i)
    ensures Infos(after) == Infos(before)
  {
  }

  // ----- refs.c, on maps -----

  /** What refs_open does to the table is a step on the maps. */
  lemma {:induction false} OpenedIsStep(open: map<nat, Open>, files: seq<File>, open': map<nat, Open>, i: nat, r: int,
                                        m: P.Maps)
    requires i < |files| && Opened(open, files, open', i, r) && !Wraps(open, i)
    requires i in open ==> open[i].count <= MAX_REFS
    requires m.files == Infos(files) && m.open == Refs(open)
    ensures r == P.Gives(m, P.OpenInode(i)) && P.Does(m, P.OpenInode(i)) == m.(open := Refs(open'))
  {
  }

  /** So is what refs_close does to table and disk. */
  lemma {:induction false} ClosedIsStep(open: map<nat, Open>, files: seq<File>, open': map<nat, Open>,
                                        files': seq<File>, i: nat, r: int, m: P.Maps)
    requires Closed(open, files, open', files', i, r) && Agrees(open, files) && (i in open ==> open[i].count > 0)
    requires m.files == Infos(files) && m.open == Refs(open) && DirsHeld(files, m.dirs)
    ensures r == P.Gives(m, P.CloseInode(i))
    ensures P.Does(m, P.CloseInode(i)).files == Infos(files') && P.Does(m, P.CloseInode(i)).open == Refs(open')
    ensures DirsHeld(files', P.Does(m, P.CloseInode(i)).dirs)
  {
    if i in open {
      AgreesAt(open, files, i);
      var dirs' := P.Does(m, P.CloseInode(i)).dirs;
      if P.Leaves(m.files, m.open, i) {
        DirsChanged(files, files', m.dirs, dirs', i);
      }
    }
  }

  /** So is what refs_link and refs_unlink do. */
  lemma {:induction false} CountedIsStep(open: map<nat, Open>, files: seq<File>, open': map<nat, Open>,
                                         files': seq<File>, i: nat, by1: int, r: int, step: P.Step, m: P.Maps)
    requires Counted(open, files, open', files', i, by1, r) && Agrees(open, files)
    requires step == if by1 == 1 then P.LinkInode(i) else P.UnlinkInode(i)
    requires by1 == 1 || by1 == -1
    requires m.files == Infos(files) && m.open == Refs(open) && DirsHeld(files, m.dirs)
    ensures r == P.Gives(m, step) && P.Does(m, step).dirs == m.dirs
    ensures P.Does(m, step).files == Infos(files') && P.Does(m, step).open == Refs(open') && DirsHeld(files', m.dirs)
  {
    if i in open {
      AgreesAt(open, files, i);
      DirsRelinked(files, i, (open[i].nlinks + by1) % NLINKS, m.dirs);
    }
  }

  // ----- the steps, on a disk -----

  /** Inode numbers the disk has room for. */
  method InodeCount(d: Disk) returns (n: nat)
    requires Ready(d)
    ensures n == |d.view.entries| < -EOF
  {
    ReadyMeans(d);
    var super := d.Read(0);
    n := super.ilistSize * N;
  }

  /** inode_getinfo, as far as the maps go. */
  method GetKind(d: Disk, i: int, ghost m: P.Maps) returns (found: bool, isDir: bool)
    requires DiskShown(d, m)
    ensures found <==> i in m.files
    ensures found ==> 0 <= i < |d.view.entries| && isDir == m.files[i].isDir
  {
    DiskMeans(d, m);
    var n := InodeCount(d);
    if i < 0 || i >= n {
      return false, false;
    }
    ReadyMeans(d);
    Loadable(d.Image(), d.view, i);
    var block, inode;
    block, found, inode := Load(d, i);
    isDir := inode.isDir;
  }

  /** refs_open. `wraps` says that the reference count has wrapped around. */
  method OpenStep(o: OpenFiles, i: int, ghost m: P.Maps) returns (r: int, wraps: bool)
    requires Shown(o, m)
    modifies o.table, o.table.buckets, o.table.Nodes()
    ensures fresh(o.table.Nodes() - old(o.table.Nodes()))
    ensures wraps <==> i in m.open && m.open[i] == MAX_REFS
    ensures !wraps ==> r == P.Gives(m, P.OpenInode(i)) && Shown(o, P.Does(m, P.OpenInode(i)))
  {
    ShownMeans(o, m);
    var n := InodeCount(o.d);
    if i >= 0 && i in o.table.open {
      o.table.CountAt(i);
      AgreesAt(o.table.open, OnDisk(o.d), i);
    }
    if i < 0 || i >= n {
      return -1, false;
    }
    var count := o.Count(i);
    wraps := count == MAX_REFS;
    ghost var open := o.table.open;
    r := o.Open(i);
    if !wraps {
      OpenedIsStep(open, OnDisk(o.d), o.table.open, i, r, m);
      ghost var m' := P.Does(m, P.OpenInode(i));
      NowShown(o, m');
    }
  }

  /** As long as inode 0 is in use, it is not on the list of free numbers. */
  lemma RootInUse(d: Disk)
    requires Ready(d) && |OnDisk(d)| > 0 && OnDisk(d)[0].File?
    ensures !ZeroHeads(d.view.spare)
  {
    var v := d.view;
    ReadyMeans(d);
    if |v.spare| > 0 {
      var top := |v.spare| - 1;
      assert SpareAt(v.entries, v.spare, top);
      if v.spare[top] == 0 {
        TopIsFree(v, 0);
      }
    }
  }

  /** refs_close. */
  method CloseStep(o: OpenFiles, i: int, ghost m: P.Maps) returns (r: int)
    requires Shown(o, m) && P.ROOT in m.files
    modifies o.table, o.table.buckets, o.table.Nodes(), o.d`view, o.d.data
    ensures o.table.Nodes() <= old(o.table.Nodes())
    ensures r == P.Gives(m, P.CloseInode(i)) && Shown(o, P.Does(m, P.CloseInode(i)))
  {
    ShownMeans(o, m);
    RootInUse(o.d);
    if i < 0 {
      return -1;
    }
    ghost var open, files := o.table.open, OnDisk(o.d);
    if i in open {
      o.table.CountAt(i);
    }
    r := o.Close(i);
    ClosedIsStep(open, files, o.table.open, OnDisk(o.d), i, r, m);
    ghost var m' := P.Does(m, P.CloseInode(i));
    NowShown(o, m');
  }

  /** refs_link. */
  method LinkStep(o: OpenFiles, i: int, ghost m: P.Maps) returns (r: int)
    requires Shown(o, m)
    modifies o.table, o.table.Nodes(), o.d.data
    ensures o.table.Nodes() == old(o.table.Nodes())
    ensures r == P.Gives(m, P.LinkInode(i)) && Shown(o, P.Does(m, P.LinkInode(i)))
  {
    ShownMeans(o, m);
    if i < 0 {
      return -1;
    }
    ghost var open, files := o.table.open, OnDisk(o.d);
    r := o.Link(i);
    CountedIsStep(open, files, o.table.open, OnDisk(o.d), i, 1, r, P.LinkInode(i), m);
    ghost var m' := P.Does(m, P.LinkInode(i));
    NowShown(o, m');
  }

  /** refs_unlink. */
  method UnlinkStep(o: OpenFiles, i: int, ghost m: P.Maps) returns (r: int)
    requires Shown(o, m)
    modifies o.table, o.table.Nodes(), o.d.data
    ensures o.table.Nodes() == old(o.table.Nodes())
    ensures r == P.Gives(m, P.UnlinkInode(i)) && Shown(o, P.Does(m, P.UnlinkInode(i)))
  {
    ShownMeans(o, m);
    if i < 0 {
      return -1;
    }
    ghost var open, files := o.table.open, OnDisk(o.d);
    r := o.Unlink(i);
    CountedIsStep(open, files, o.table.open, OnDisk(o.d), i, -1, r, P.UnlinkInode(i), m);
    ghost var m' := P.Does(m, P.UnlinkInode(i));
    NowShown(o, m');
  }

  // ----- dir.c, on a disk -----

  /** The disk is sound, and file `i` holds this directory. */
  ghost predicate DirKept(d: Disk, i: int, dir: Directory)
    reads d, d.data, dir
  {
    forall u :: Look(u) ==> 0 <= i < |d.view.entries| && Keeps(d.Image(), d.view, i, dir) && dir.isDir && dir.self == i
  }

  lemma DirKeptMeans(d: Disk, i: int, dir: Directory)
    requires DirKept(d, i, dir)
    ensures 0 <= i < |d.view.entries| && Keeps(d.Image(), d.view, i, dir) && dir.isDir && dir.self == i
  {
    assert Look(0);
  }

  /** Directory `i` has changed. */
  lemma DirDone(d: Disk, fs: seq<File>, i: int, dir: Directory, m: P.Maps, m': P.Maps)
    requires DirKept(d, i, dir) && 0 <= i && DataOnly(fs, OnDisk(d), i)
    requires m.files == Infos(fs) && DirsHeld(fs, m.dirs)
    requires m' == m.(dirs := m.dirs[i := P.Dir(dir.Map(), dir.crippled)])
    ensures DiskShown(d, m')
  {
    DirKeptMeans(d, i, dir);
    var fs' := OnDisk(d);
    InfosKept(fs, fs', i);
    DirStored(fs', i, dir);
    DirsChanged(fs, fs', m.dirs, m'.dirs, i);
  }

  /** Directory `i` of the maps has been read. */
  ghost predicate IsRead(i: int, dir: Directory, m: P.Maps)
    reads dir
  {
    i >= 0 && i in m.files && m.files[i].isDir && i in m.dirs && m.dirs[i] == P.Dir(dir.Map(), dir.crippled)
  }

  /** What every operation on a directory begins with: inode_getinfo, and reading the blocks. */
  method ReadDirStep(d: Disk, i: int, ghost m: P.Maps) returns (r: int, dir: Directory?)
    requires DiskShown(d, m)
    modifies d.data
    ensures DiskShown(d, m) && m.files == Infos(OnDisk(d)) && DirsHeld(OnDisk(d), m.dirs)
    ensures OnDisk(d) == old(OnDisk(d))
    ensures r == if i !in m.files then ENOENT else if !m.files[i].isDir then ENOTDIR else 0
    ensures i in m.files && m.files[i].isDir ==> i in m.dirs
    ensures r == 0 ==> dir != null && fresh(dir) && DirKept(d, i, dir) && IsRead(i, dir, m)
  {
    DiskMeans(d, m);
    var found, isDir := GetKind(d, i, m);
    if !found {
      return ENOENT, null;
    }
    if !isDir {
      return ENOTDIR, null;
    }
    dir := ReadKept(d, i, m.dirs);
    return 0, dir;
  }

  method ReadKept(d: Disk, i: int, ghost dirs: map<int, P.Dir>) returns (dir: Directory)
    requires Ready(d) && 0 <= i < |OnDisk(d)| && OnDisk(d)[i].File? && OnDisk(d)[i].isDir && DirsHeld(OnDisk(d), dirs)
    modifies d.data
    ensures Ready(d) && OnDisk(d) == old(OnDisk(d))
    ensures fresh(dir) && DirKept(d, i, dir) && i in dirs && dirs[i] == P.Dir(dir.Map(), dir.crippled)
  {
    ReadyMeans(d);
    ghost var fs := OnDisk(d);
    assert DirAt(fs, dirs, i);
    ghost var blocks, c :| HeldAs(fs[i], i, blocks, c, dirs[i].crippled) && dirs[i].entries == MapOf(c);
    dir := ReadDir(d, i, blocks, c, dirs[i].crippled);
  }

  /** dir_lookup. */
  method FindStep(d: Disk, i: int, name: Name, ghost m: P.Maps) returns (r: int)
    requires DiskShown(d, m)
    modifies d.data
    ensures DiskShown(d, m) && r == P.Gives(m, P.FindEntry(i, name))
    ensures i !in m.files ==> r == ENOENT
    ensures i in m.files && !m.files[i].isDir ==> r == ENOTDIR
    ensures i in m.files && m.files[i].isDir ==> i in m.dirs
    ensures i in m.files && m.files[i].isDir ==>
      r == if |name| > NAME_MAX then ENAMETOOLONG else if name in m.dirs[i].entries then m.dirs[i].entries[name]
           else ENOENT
  {
    var dir;
    r, dir := ReadDirStep(d, i, m);
    if r == 0 {
      r := FindKept(d, i, dir, name);
    }
  }

  method FindKept(d: Disk, ghost i: int, dir: Directory, name: Name) returns (r: int)
    requires DirKept(d, i, dir)
    ensures r == LookupResult(true, dir.Map(), name)
    ensures r == if |name| > NAME_MAX then ENAMETOOLONG else if name in dir.Map() then dir.Map()[name] else ENOENT
  {
    DirKeptMeans(d, i, dir);
    r := dir.Lookup(name, NUL);
  }

  /** dir_remove. */
  method RemoveStep(d: Disk, i: int, name: Name, variant: Variant, ghost m: P.Maps) returns (r: int)
    requires DiskShown(d, m)
    modifies d`view, d.data
    ensures r == P.Gives(m, P.RemoveEntry(i, name)) && DiskShown(d, P.Does(m, P.RemoveEntry(i, name)))
    ensures i !in m.files ==> r == ENOENT
    ensures i in m.files && !m.files[i].isDir ==> r == ENOTDIR
    ensures i in m.files && m.files[i].isDir ==> i in m.dirs
    ensures i in m.files && m.files[i].isDir ==>
      r == if m.dirs[i].crippled then ENOENT else if |name| > NAME_MAX then ENAMETOOLONG
           else if name == DOT then EINVAL else if name == DOTDOT then ENOTEMPTY
           else if name in m.dirs[i].entries then m.dirs[i].entries[name] else ENOENT
  {
    var dir;
    r, dir := ReadDirStep(d, i, m);
    if r == 0 {
      ghost var fs := OnDisk(d);
      r := RemoveKept(d, i, dir, name, variant);
      DirDone(d, fs, i, dir, m, P.Does(m, P.RemoveEntry(i, name)));
    }
  }

  method RemoveKept(d: Disk, i: int, dir: Directory, name: Name, variant: Variant) returns (r: int)
    requires DirKept(d, i, dir) && i >= 0
    modifies d`view, d.data, dir
    ensures DirKept(d, i, dir) && DataOnly(old(OnDisk(d)), OnDisk(d), i)
    ensures r == RemoveResult(true, dir.crippled, old(dir.Map()), name) && dir.crippled == old(dir.crippled)
    ensures dir.Map() == if r >= 0 then old(dir.Map()) - {name} else old(dir.Map())
    ensures r == if dir.crippled then ENOENT else if |name| > NAME_MAX then ENAMETOOLONG
                 else if name == DOT then EINVAL else if name == DOTDOT then ENOTEMPTY
                 else if name in old(dir.Map()) then old(dir.Map())[name] else ENOENT
  {
    DirKeptMeans(d, i, dir);
    r := RemoveStored(d, i, dir, name, variant.test, variant.clamp);
  }

  /** dir_destroy. */
  method DestroyStep(d: Disk, i: int, variant: Variant, ghost m: P.Maps) returns (r: int)
    requires DiskShown(d, m)
    modifies d`view, d.data
    ensures r == P.Gives(m, P.DestroyDir(i)) && DiskShown(d, P.Does(m, P.DestroyDir(i)))
    ensures i !in m.files ==> r == ENOENT
    ensures i in m.files && !m.files[i].isDir ==> r == ENOTDIR
    ensures i in m.files && m.files[i].isDir ==> i in m.dirs
    ensures i in m.files && m.files[i].isDir ==>
      r == if m.dirs[i].crippled then ENOENT else if OnlyDotted(m.dirs[i].entries) then 0 else ENOTEMPTY
  {
    var dir;
    r, dir := ReadDirStep(d, i, m);
    if r == 0 {
      ghost var fs, was := OnDisk(d), P.Dir(dir.Map(), dir.crippled);
      r := DestroyKept(d, i, dir, variant);
      DestroyDoes(m, i, r, was, P.Dir(dir.Map(), dir.crippled));
      DirDone(d, fs, i, dir, m, P.Does(m, P.DestroyDir(i)));
    }
  }

  lemma DestroyDoes(m: P.Maps, i: int, r: int, dir: P.Dir, dir': P.Dir)
    requires i in m.files && m.files[i].isDir && i in m.dirs && m.dirs[i] == dir
    requires r == DestroyResult(true, dir.crippled, dir.entries)
    requires dir' == dir.(crippled := dir.crippled || r == 0)
    ensures r == P.Gives(m, P.DestroyDir(i)) && P.Does(m, P.DestroyDir(i)) == m.(dirs := m.dirs[i := dir'])
  {
    assert m.dirs[i := dir] == m.dirs;
  }

  method DestroyKept(d: Disk, i: int, dir: Directory, variant: Variant) returns (r: int)
    requires DirKept(d, i, dir) && i >= 0
    modifies d`view, d.data, dir
    ensures DirKept(d, i, dir) && DataOnly(old(OnDisk(d)), OnDisk(d), i)
    ensures r == DestroyResult(true, old(dir.crippled), dir.Map()) && dir.Map() == old(dir.Map())
    ensures dir.crippled == (old(dir.crippled) || r == 0)
    ensures r == if old(dir.crippled) then ENOENT else if OnlyDotted(dir.Map()) then 0 else ENOTEMPTY
  {
    DirKeptMeans(d, i, dir);
    r := DestroyStored(d, i, dir, variant.test, variant.clamp);
  }

  /** dir_reparent. */
  method ReparentStep(d: Disk, i: int, parent: int, variant: Variant, ghost m: P.Maps) returns (r: int)
    requires DiskShown(d, m) && GoodNumber(parent)
    modifies d`view, d.data
    ensures r == P.Gives(m, P.ReparentDir(i, parent)) && DiskShown(d, P.Does(m, P.ReparentDir(i, parent)))
    ensures i !in m.files ==> r == ENOENT
    ensures i in m.files && !m.files[i].isDir ==> r == ENOTDIR
    ensures i in m.files && m.files[i].isDir ==> i in m.dirs
    ensures i in m.files && m.files[i].isDir ==> r == if m.dirs[i].crippled then ENOENT else 0
  {
    var dir;
    r, dir := ReadDirStep(d, i, m);
    if r == 0 {
      ghost var fs := OnDisk(d);
      r := ReparentKept(d, i, dir, parent, variant);
      DirDone(d, fs, i, dir, m, P.Does(m, P.ReparentDir(i, parent)));
    }
  }

  method ReparentKept(d: Disk, i: int, dir: Directory, parent: int, variant: Variant) returns (r: int)
    requires DirKept(d, i, dir) && i >= 0 && GoodNumber(parent)
    modifies d`view, d.data, dir
    ensures DirKept(d, i, dir) && DataOnly(old(OnDisk(d)), OnDisk(d), i)
    ensures r == ReparentResult(true, dir.crippled) && dir.crippled == old(dir.crippled)
    ensures dir.Map() == if r == 0 then old(dir.Map())[DOTDOT := parent] else old(dir.Map())
    ensures r == if dir.crippled then ENOENT else 0
  {
    DirKeptMeans(d, i, dir);
    r := ReparentStored(d, i, dir, parent, variant.test, variant.clamp);
  }

  /** dir_insert. `lost` says that a live indirect block of the directory has been released. */
  method InsertStep(d: Disk, i: int, name: Name, target: int, variant: Variant, ghost m: P.Maps)
    returns (r: int, lost: bool)
    requires DiskShown(d, m) && CString(name) && GoodNumber(target)
    modifies d`view, d.data
    ensures lost ==> variant.test.StartIdxIsZero?
    ensures !lost ==>
      && r == P.Gives(m, P.InsertEntry(i, name, target, r != ENOSPC))
      && DiskShown(d, P.Does(m, P.InsertEntry(i, name, target, r != ENOSPC)))
    ensures !lost && i !in m.files ==> r == ENOENT
    ensures !lost && i in m.files && !m.files[i].isDir ==> r == ENOTDIR
    ensures i in m.files && m.files[i].isDir ==> i in m.dirs
    ensures !lost && i in m.files && m.files[i].isDir && m.dirs[i].crippled ==> r == ENOENT
    ensures !lost && i in m.files && m.files[i].isDir && !m.dirs[i].crippled && |name| > NAME_MAX ==>
      r == ENAMETOOLONG
    ensures !lost && i in m.files && m.files[i].isDir && !m.dirs[i].crippled && |name| <= NAME_MAX ==>
      if name in m.dirs[i].entries then r == EEXIST else r == 0 || r == ENOSPC
  {
    var dir;
    r, dir := ReadDirStep(d, i, m);
    lost := false;
    if r == 0 {
      ghost var fs, was := OnDisk(d), P.Dir(dir.Map(), dir.crippled);
      r, lost := InsertKept(d, i, dir, name, target, variant);
      if !lost {
        InsertDoes(m, i, name, target, r, was, P.Dir(dir.Map(), dir.crippled));
        DirDone(d, fs, i, dir, m, P.Does(m, P.InsertEntry(i, name, target, r != ENOSPC)));
      }
    }
  }

  lemma InsertDoes(m: P.Maps, i: int, name: Name, target: int, r: int, dir: P.Dir, dir': P.Dir)
    requires i in m.files && m.files[i].isDir && i in m.dirs && m.dirs[i] == dir
    requires r == InsertResult(true, dir.crippled, dir.entries, name, r != ENOSPC)
    requires dir' == dir.(entries := if r == 0 then dir.entries[name := target] else dir.entries)
    ensures var step := P.InsertEntry(i, name, target, r != ENOSPC);
      r == P.Gives(m, step) && P.Does(m, step) == m.(dirs := m.dirs[i := dir'])
  {
    assert m.dirs[i := dir] == m.dirs;
  }

  method InsertKept(d: Disk, i: int, dir: Directory, name: Name, target: int, variant: Variant)
    returns (r: int, lost: bool)
    requires DirKept(d, i, dir) && i >= 0 && CString(name) && GoodNumber(target)
    modifies d`view, d.data, dir
    ensures lost ==> variant.test.StartIdxIsZero?
    ensures !lost ==> DirKept(d, i, dir) && DataOnly(old(OnDisk(d)), OnDisk(d), i) && dir.crippled == old(dir.crippled)
    ensures !lost ==> r == InsertResult(true, dir.crippled, old(dir.Map()), name, r != ENOSPC)
    ensures !lost ==> dir.Map() == if r == 0 then old(dir.Map())[name := target] else old(dir.Map())
    ensures !lost && old(dir.crippled) ==> r == ENOENT
    ensures !lost && !old(dir.crippled) && |name| > NAME_MAX ==> r == ENAMETOOLONG
    ensures !lost && !old(dir.crippled) && |name| <= NAME_MAX ==>
      if name in old(dir.Map()) then r == EEXIST else r == 0 || r == ENOSPC
  {
    DirKeptMeans(d, i, dir);
    r, lost := InsertStored(d, i, dir, name, target, variant.test, variant.clamp);
  }

  // ----- new inodes -----

  lemma {:induction false} InfosAdded(fs: seq<File>, fs': seq<File>, i: nat, f: File)
    requires i < |fs| && f.File? && fs' == fs[i := f]
    ensures Infos(fs') == Infos(fs)[i := P.Info(f.isDir, f.nlinks)]
  {
  }

  /** dir_create. The number is the first that is free. */
  method MakeDirStep(d: Disk, parent: int, variant: Variant, ghost m: P.Maps) returns (r: int)
    requires DiskShown(d, m) && GoodNumber(parent)
    modifies d`view, d.data
    ensures r >= 0 || r == ENOSPC
    ensures if old(CanCreate(d.view)) then r == old(d.view).spare[|old(d.view).spare| - 1] else r == ENOSPC
    ensures r >= 0 ==> r !in m.files && DiskShown(d, P.Does(m, P.MakeDir(parent, r, true)))
    ensures r < 0 ==> DiskShown(d, m)
  {
    DiskMeans(d, m);
    ReadyMeans(d);
    ghost var fs := OnDisk(d);
    var dir;
    r, dir := CreateStored(d, parent, variant.test, variant.clamp);
    if r >= 0 {
      NewDirShown(d, fs, r, parent, dir, m);
    }
  }

  lemma NewDirShown(d: Disk, fs: seq<File>, r: nat, parent: int, dir: Directory, m: P.Maps)
    requires r < |fs| == |OnDisk(d)| && fs[r] == Missing && m.files == Infos(fs) && DirsHeld(fs, m.dirs)
    requires Keeps(d.Image(), d.view, r, dir) && dir.isDir && !dir.crippled && dir.self == r
    requires dir.Map() == map[DOTDOT := parent, DOT := r] && OnDisk(d) == fs[r := File(true, 0, Laid(dir.blocks))]
    ensures r !in m.files && DiskShown(d, P.Does(m, P.MakeDir(parent, r, true)))
  {
    var fs', m' := OnDisk(d), P.Does(m, P.MakeDir(parent, r, true));
    InfosAdded(fs, fs', r, File(true, 0, Laid(dir.blocks)));
    DirStored(fs', r, dir);
    DirsChanged(fs, fs', m.dirs, m'.dirs, r);
  }

  /** inode_allocate, for a file. */
  method MakeFileStep(d: Disk, ghost m: P.Maps) returns (r: int)
    requires DiskShown(d, m)
    modifies d`view, d.data
    ensures r >= 0 || r == -1
    ensures r == -1 <==> old(d.view).spare == [] || old(d.view).free == {}
    ensures r >= 0 ==> r !in m.files && DiskShown(d, P.Does(m, P.MakeFile(r, true)))
    ensures r < 0 ==> DiskShown(d, m)
  {
    DiskMeans(d, m);
    ReadyMeans(d);
    ghost var fs := OnDisk(d);
    r := InodeAllocate(d);
    if r >= 0 {
      NewFileShown(d, fs, r, m);
    }
  }

  lemma NewFileShown(d: Disk, fs: seq<File>, r: nat, m: P.Maps)
    requires r < |fs| && fs[r] == Missing && m.files == Infos(fs) && DirsHeld(fs, m.dirs)
    requires FsOk(d.Image(), d.view) && OnDisk(d) == fs[r := EMPTY]
    ensures r !in m.files && DiskShown(d, P.Does(m, P.MakeFile(r, true)))
  {
    var fs', m' := OnDisk(d), P.Does(m, P.MakeFile(r, true));
    InfosAdded(fs, fs', r, EMPTY);
    assert DirAt(fs, m.dirs, r);
    assert r !in m.dirs by {
      if r in m.dirs {
        var blocks, c :| HeldAs(fs[r], r, blocks, c, m.dirs[r].crippled) && m.dirs[r].entries == MapOf(c);
        HeldMeans(fs[r], r, blocks, c, m.dirs[r].crippled);
      }
    }
    assert DirAt(fs', m'.dirs, r);
    DirsChanged(fs, fs', m.dirs, m'.dirs, r);
  }

  // ----- all of it -----

  /** How a step ends: as the maps say, or with a reference count wrapped around, or with a live block
      released. */
  datatype StepEnding = AsShown | ReferenceWrapped | LiveReleased

  /** The same call; what it found may differ. */
  predicate SameCall(step: P.Step, actual: P.Step) {
    match step
    case InsertEntry(d, name, target, _) =>
      actual.InsertEntry? && actual.d == d && actual.name == name && actual.target == target
    case MakeDir(parent, _, _) => actual.MakeDir? && actual.parent == parent
    case MakeFile(_, _) => actual.MakeFile?
    case _ => actual == step
  }

  lemma TableStill(t: Table, m: P.Maps, m': P.Maps)
    requires TableShown(t, m) && m'.open == m.open
    requires forall i :: i in m.files ==> i in m'.files && m'.files[i].nlinks == m.files[i].nlinks
    ensures TableShown(t, m')
  {
    assert Look(0);
  }

  lemma NumberShown(d: Disk, m: P.Maps, i: int)
    requires DiskShown(d, m)
    ensures i in m.files ==> GoodNumber(i)
  {
    DiskMeans(d, m);
    ReadyMeans(d);
  }

  /** A step on directories or new inodes: the table stays as it is. */
  method PerformOnDisk(d: Disk, step: P.Step, variant: Variant, ghost m: P.Maps)
    returns (r: int, actual: P.Step, ending: StepEnding)
    requires DiskShown(d, m) && P.Allowed(m, step)
    requires !step.OpenInode? && !step.CloseInode? && !step.LinkInode? && !step.UnlinkInode?
    modifies d`view, d.data
    ensures SameCall(step, actual) && (ending.AsShown? || ending.LiveReleased?)
    ensures ending.LiveReleased? ==> step.InsertEntry? && variant.test.StartIdxIsZero?
    ensures ending.AsShown? ==> r == P.Gives(m, actual) && DiskShown(d, P.Does(m, actual)) && P.Allowed(m, actual)
  {
    actual, ending := step, AsShown;
    match step
    case FindEntry(i, name) =>
      r := FindStep(d, i, name, m);
    case RemoveEntry(i, name) =>
      r := RemoveStep(d, i, name, variant, m);
    case DestroyDir(i) =>
      r := DestroyStep(d, i, variant, m);
    case ReparentDir(i, parent) =>
      NumberShown(d, m, parent);
      r := ReparentStep(d, i, parent, variant, m);
    case InsertEntry(i, name, target, _) =>
      NumberShown(d, m, target);
      var lost;
      r, lost := InsertStep(d, i, name, target, variant, m);
      actual := P.InsertEntry(i, name, target, r != ENOSPC);
      if lost {
        ending := LiveReleased;
      }
    case MakeDir(parent, _, _) =>
      NumberShown(d, m, parent);
      r := MakeDirStep(d, parent, variant, m);
      actual := P.MakeDir(parent, r, r >= 0);
    case MakeFile(_, _) =>
      r := MakeFileStep(d, m);
      actual := P.MakeFile(r, r >= 0);
  }

  /** A step on the table. */
  method PerformOnTable(o: OpenFiles, step: P.Step, ghost m: P.Maps) returns (r: int, ending: StepEnding)
    requires Shown(o, m) && P.Allowed(m, step)
    requires step.OpenInode? || step.CloseInode? || step.LinkInode? || step.UnlinkInode?
    modifies o.table, o.table.buckets, o.table.Nodes(), o.d`view, o.d.data
    ensures fresh(o.table.Nodes() - old(o.table.Nodes())) && !ending.LiveReleased?
    ensures ending.AsShown? ==> r == P.Gives(m, step) && Shown(o, P.Does(m, step))
    ensures ending.ReferenceWrapped? <==> step.OpenInode? && step.i in m.open && m.open[step.i] == MAX_REFS
  {
    ending := AsShown;
    match step
    case OpenInode(i) =>
      var wraps;
      r, wraps := OpenStep(o, i, m);
      ending := if wraps then ReferenceWrapped else AsShown;
    case CloseInode(i) =>
      r := CloseStep(o, i, m);
    case LinkInode(i) =>
      r := LinkStep(o, i, m);
    case UnlinkInode(i) =>
      r := UnlinkStep(o, i, m);
  }

  /** A step. What it returns, and what the maps are afterwards, is as the maps say for the step that was
      actually made. */
  method PerformStep(o: OpenFiles, step: P.Step, variant: Variant, ghost m: P.Maps)
    returns (r: int, actual: P.Step, ending: StepEnding)
    requires Shown(o, m) && P.Allowed(m, step)
    modifies o.table, o.table.buckets, o.table.Nodes(), o.d`view, o.d.data
    ensures fresh(o.table.Nodes() - old(o.table.Nodes())) && SameCall(step, actual)
    ensures ending.AsShown? ==> r == P.Gives(m, actual) && Shown(o, P.Does(m, actual)) && P.Allowed(m, actual)
    ensures ending.ReferenceWrapped? <==> step.OpenInode? && step.i in m.open && m.open[step.i] == MAX_REFS
    ensures ending.LiveReleased? ==> step.InsertEntry? && variant.test.StartIdxIsZero?
  {
    if step.OpenInode? || step.CloseInode? || step.LinkInode? || step.UnlinkInode? {
      actual := step;
      r, ending := PerformOnTable(o, step, m);
    } else {
      ghost var nodes := o.table.Nodes();
      r, actual, ending := PerformOnDisk(o.d, step, variant, m);
      assert o.table.Nodes() == nodes;
      if ending.AsShown? {
        TableStill(o.table, m, P.Does(m, actual));
      }
    }
  }

  // ----- whole runs -----

  /** How a disk that follows a sequence of steps gets on: it has followed it to the end; or it has found
      something else than was recorded, about room or about a number; or a step has not ended as shown. */
  datatype Following = Followed | FoundOther | StepFailed(ending: StepEnding)

  /** A new disk shows empty maps. */
  method NewStore(d: Disk, ilistSize: nat) returns (o: OpenFiles)
    requires 1 <= ilistSize && ilistSize + 1 < d.data.Length && ilistSize * N < -EOF
    modifies d`view, d.data
    ensures fresh(o) && o.d == d && fresh(o.table) && fresh(o.table.buckets) && o.table.Nodes() == {}
    ensures Shown(o, P.NOTHING)
    ensures CanCreate(d.view) <==> RoomToAppend(0, d.data.Length - (ilistSize + 1) - 1)
    ensures |d.view.spare| > 0 && d.view.spare[|d.view.spare| - 1] == 0
  {
    NewDisk(d, ilistSize);
    ghost var w := WorldOf(d.Image(), d.view);
    assert |w.spare| == ilistSize * N && w.spare[|w.spare| - 1] == 0;
    ghost var fs := OnDisk(d);
    assert fs == NewWorld(ilistSize * N, 0).files;
    o := new OpenFiles(d);
    assert Agrees(o.table.open, fs);
    forall i ensures DirAt(fs, map[], i) {
    }
    NowShown(o, P.NOTHING);
  }

  /** mkfs_path on a new disk: its assertions hold exactly if there are blocks enough for the root directory. */
  method RootOnDisk(d: Disk, ilistSize: nat, variant: Variant) returns (o: OpenFiles, ok: bool)
    requires 1 <= ilistSize && ilistSize + 1 < d.data.Length && ilistSize * N < -EOF
    modifies d`view, d.data
    ensures ok <==> RoomToAppend(0, d.data.Length - (ilistSize + 1) - 1)
    ensures ok ==>
      Shown(o, P.Maps(map[P.ROOT := P.Info(true, 1)], map[P.ROOT := P.EmptyDir(P.ROOT, P.ROOT)], map[]))
  {
    o := NewStore(d, ilistSize);
    ghost var nodes := o.table.Nodes();
    var root := MakeDirStep(d, 0, variant, P.NOTHING);
    ok := root == 0;
    if ok {
      RootMade();
      assert o.table.Nodes() == nodes;
      TableStill(o.table, P.NOTHING, RootMaps(1));
      OpenRoot(o, variant);
    }
  }

  lemma {:induction false} RootMade()
    ensures P.Does(P.NOTHING, P.MakeDir(0, 0, true)) == RootMaps(1)
  {
  }

  /** The rest of it. */
  method OpenRoot(o: OpenFiles, variant: Variant)
    requires Shown(o, RootMaps(1))
    modifies o.table, o.table.buckets, o.table.Nodes(), o.d`view, o.d.data
    ensures Shown(o, RootMaps(4))
  {
    var steps := [P.OpenInode(0), P.LinkInode(0), P.CloseInode(0)];
    for k := 0 to 3
      invariant Shown(o, RootMaps(k + 1)) && fresh(o.table.Nodes() - old(o.table.Nodes()))
    {
      var r, actual, ending := PerformStep(o, steps[k], variant, RootMaps(k + 1));
      assert r == 0 && ending.AsShown?;
      assert P.Does(RootMaps(k + 1), steps[k]) == RootMaps(k + 2);
    }
  }

  /** The maps while the root directory is made. */
  ghost function RootMaps(k: nat): P.Maps {
    P.Maps(map[P.ROOT := P.Info(true, if k <= 2 then 0 else 1)], map[P.ROOT := P.EmptyDir(P.ROOT, P.ROOT)],
           if k == 2 || k == 3 then map[P.ROOT := 1] else map[])
  }

  /** Makes the steps on a disk, one after the other. As long as it finds what is recorded, every result is the
      one of the maps, and files, directories and references are those of the maps. */
  method Follow(o: OpenFiles, log: seq<P.Step>, variant: Variant) returns (done: nat, following: Following)
    requires Shown(o, P.NOTHING) && P.AllAllowed(log)
    modifies o.table, o.table.buckets, o.table.Nodes(), o.d`view, o.d.data
    ensures done <= |log| && (following == Followed <==> done == |log|)
    ensures following == Followed ==> Shown(o, P.After(log))
    ensures following != Followed ==> Departs(o, P.After(log[..done]), log[done], variant, following)
  {
    done, following := 0, Followed;
    while done < |log|
      invariant done <= |log| && Shown(o, P.After(log[..done])) && fresh(o.table.Nodes() - old(o.table.Nodes()))
    {
      following := FollowOne(o, log, done, variant);
      if following != Followed {
        return;
      }
      done := done + 1;
    }
    assert log[..done] == log;
    following := Followed;
  }

  /** How one step may end otherwise than it was recorded. */
  ghost predicate Departs(o: OpenFiles, m: P.Maps, step: P.Step, variant: Variant, following: Following)
    reads o.table, o.table.buckets, o.table.Nodes(), o.d, o.d.data
  {
    match following
    case Followed => false
    case FoundOther => exists actual :: Instead(step, actual) && Shown(o, P.Does(m, actual))
    case StepFailed(ending) => BadEnding(m, step, variant, ending)
  }

  method FollowOne(o: OpenFiles, log: seq<P.Step>, k: nat, variant: Variant) returns (following: Following)
    requires P.AllAllowed(log) && k < |log| && Shown(o, P.After(log[..k]))
    modifies o.table, o.table.buckets, o.table.Nodes(), o.d`view, o.d.data
    ensures fresh(o.table.Nodes() - old(o.table.Nodes()))
    ensures following == Followed ==> Shown(o, P.After(log[..k + 1]))
    ensures following != Followed ==> Departs(o, P.After(log[..k]), log[k], variant, following)
  {
    ghost var m := P.After(log[..k]);
    AllowedAt(log, k);
    var r, actual, ending := PerformStep(o, log[k], variant, m);
    if !ending.AsShown? {
      return StepFailed(ending);
    }
    if actual != log[k] {
      assert Instead(log[k], actual);
      return FoundOther;
    }
    AfterNext(log, k);
    return Followed;
  }

  /** The disk has found something else about the same call. */
  ghost predicate Instead(step: P.Step, actual: P.Step) {
    SameCall(step, actual) && actual != step
  }

  /** What keeps a step from ending as shown. */
  ghost predicate BadEnding(m: P.Maps, step: P.Step, variant: Variant, ending: StepEnding) {
    match ending
    case AsShown => false
    case ReferenceWrapped => step.OpenInode? && step.i in m.open && m.open[step.i] == MAX_REFS
    case LiveReleased => step.InsertEntry? && variant.test.StartIdxIsZero?
  }

  lemma {:induction false} AllowedAt(log: seq<P.Step>, k: nat)
    requires P.AllAllowed(log) && k < |log|
    ensures P.Allowed(P.After(log[..k]), log[k])
  {
    var n := |log| - 1;
    if k < n {
      AllowedAt(log[..n], k);
      assert log[..n][..k] == log[..k];
    }
  }

  lemma {:induction false} AfterNext(log: seq<P.Step>, k: nat)
    requires k < |log|
    ensures P.After(log[..k + 1]) == P.Does(P.After(log[..k]), log[k])
  {
    assert log[..k + 1][..k] == log[..k];
  }

  /** Any sequence of path operations, on maps and on a new disk. If the disk finds what is recorded, then at the
      end its files, the directories stored in them and the table of open files are those of the maps: every
      link count on the disk is the number of entries that name the inode, one more for the root, and no file is
      there without a link or a reference. */
  method RunOnDisk(d: Disk, ilistSize: nat, ops: seq<P.PathOp>, variant: Variant)
    returns (o: OpenFiles, p: P.Paths, ending: P.Ending, done: nat, following: Following)
    requires 1 <= ilistSize && ilistSize + 1 < d.data.Length && ilistSize * N < -EOF
    modifies d`view, d.data
    ensures p.Valid() <==> ending != P.CountWrapped
    ensures done <= |p.log| && (following == Followed <==> done == |p.log|)
    ensures following != Followed ==> Departs(o, P.After(p.log[..done]), p.log[done], variant, following)
    ensures following == Followed ==> Shown(o, p.Now())
    ensures following == Followed ==>
      && o.d == d && FsOk(d.Image(), d.view) && p.files == Infos(OnDisk(d)) && p.open == Refs(o.table.open)
      && DirsHeld(OnDisk(d), p.dirs)
    ensures following == Followed && ending != P.CountWrapped ==>
      forall i :: 0 <= i < |OnDisk(d)| && OnDisk(d)[i].File? ==>
      OnDisk(d)[i].nlinks == |P.Entries(p.dirs, i)| + if i == P.ROOT then 1 else 0
    ensures following == Followed && ending != P.CountWrapped ==>
      forall i :: 0 <= i < |OnDisk(d)| && OnDisk(d)[i].File? ==> OnDisk(d)[i].nlinks > 0 || i in Refs(o.table.open)
  {
    o := NewStore(d, ilistSize);
    p, ending := P.Run(ops);
    P.AfterMeans(p.log, p.files, p.dirs, p.open);
    ghost var m, linked := p.Now(), ending != P.CountWrapped;
    assert linked ==> forall i :: i in m.files ==>
      m.files[i].nlinks == |P.Entries(m.dirs, i)| + if i == P.ROOT then 1 else 0;
    assert linked ==> forall i :: i in m.files ==> m.files[i].nlinks > 0 || i in m.open;
    done, following := Follow(o, p.log, variant);
    if following == Followed {
      LinksOnDisk(o, m, linked);
    }
  }

  lemma LinksOnDisk(o: OpenFiles, m: P.Maps, linked: bool)
    requires Shown(o, m)
    requires linked ==> forall i :: i in m.files ==>
      m.files[i].nlinks == |P.Entries(m.dirs, i)| + if i == P.ROOT then 1 else 0
    requires linked ==> forall i :: i in m.files ==> m.files[i].nlinks > 0 || i in m.open
    ensures FsOk(o.d.Image(), o.d.view) && m.files == Infos(OnDisk(o.d)) && m.open == Refs(o.table.open)
    ensures DirsHeld(OnDisk(o.d), m.dirs)
    ensures linked ==> forall i :: 0 <= i < |OnDisk(o.d)| && OnDisk(o.d)[i].File? ==>
      OnDisk(o.d)[i].nlinks == |P.Entries(m.dirs, i)| + if i == P.ROOT then 1 else 0
    ensures linked ==> forall i :: 0 <= i < |OnDisk(o.d)| && OnDisk(o.d)[i].File? ==>
      OnDisk(o.d)[i].nlinks > 0 || i in Refs(o.table.open)
  {
    ShownMeans(o, m);
    ReadyMeans(o.d);
    forall i | 0 <= i < |OnDisk(o.d)| && OnDisk(o.d)[i].File?
      ensures i in m.files && m.files[i].nlinks == OnDisk(o.d)[i].nlinks
    {
    }
  }
}
