// The mutating operations of path.c: link counts agree with directory entries.

module Paths {
  import opened Blocks
  import opened DirBlocks
  import opened Directories

  const ROOT: int := 0
  const EPERM: int := -1
  const EACCES: int := -13
  const EISDIR: int := -21

  datatype Info = Info(isDir: bool, nlinks: nat)

  /** A directory, as the map it stands for. */
  datatype Dir = Dir(entries: map<Name, int>, crippled: bool)

  /** A slot of the table of open paths, which may be empty. */
  datatype Path = Path(valid: bool, parent: int, name: Name)

  // ----- entries and link counts -----

  predicate Dotted(name: Name) {
    name == DOT || name == DOTDOT
  }

  /** A name that a path can end with. */
  predicate Plainly(name: Name) {
    !Dotted(name) && CString(name)
  }

  ghost predicate HasEntry(dirs: map<int, Dir>, d: int, name: Name) {
    d in dirs && name in dirs[d].entries && !Dotted(name)
  }

  /** The entries that name an inode, but for "." and "..". */
  ghost function Entries(dirs: map<int, Dir>, inode: int): set<(int, Name)> {
    set d, name | d in dirs && name in dirs[d].entries && !Dotted(name) && dirs[d].entries[name] == inode :: (d, name)
  }

  ghost function AllEntries(dirs: map<int, Dir>): set<(int, Name)> {
    set d, name | d in dirs && name in dirs[d].entries && !Dotted(name) :: (d, name)
  }

  ghost predicate IsPlain(dirs: map<int, Dir>, m: map<(int, Name), int>) {
    forall u :: Look(u) ==> m == map e | e in AllEntries(dirs) :: dirs[e.0].entries[e.1]
  }

  /** All entries but "." and "..", with what they name. */
  ghost function Plain(dirs: map<int, Dir>): map<(int, Name), int> {
    assert IsPlain(dirs, map e | e in AllEntries(dirs) :: dirs[e.0].entries[e.1]);
    var m :| IsPlain(dirs, m);
    m
  }

  lemma {:induction false} PlainAt(dirs: map<int, Dir>, e: (int, Name))
    ensures e in Plain(dirs) <==> HasEntry(dirs, e.0, e.1)
    ensures HasEntry(dirs, e.0, e.1) ==> Plain(dirs)[e] == dirs[e.0].entries[e.1]
  {
    assert Look(0);
    assert IsPlain(dirs, Plain(dirs));
    assert e in AllEntries(dirs) <==> HasEntry(dirs, e.0, e.1);
  }

  /** The link count of inode `i`, but for `owed` links still to be counted. */
  ghost predicate CountOk(files: map<int, Info>, dirs: map<int, Dir>, i: int, debtor: int, owed: int) {
    i in files ==>
      && i >= 0 && files[i].nlinks < NLINKS
      && files[i].nlinks + (if i == debtor then owed else 0) == |Entries(dirs, i)| + if i == ROOT then 1 else 0
  }

  ghost predicate TargetOk(files: map<int, Info>, dirs: map<int, Dir>, d: int, name: Name) {
    HasEntry(dirs, d, name) ==> dirs[d].entries[name] in files
  }

  /** A directory without links has been destroyed, unless it is new; either way it is empty. */
  ghost predicate DirOk(files: map<int, Info>, dirs: map<int, Dir>, d: int, newDir: int) {
    && (d in dirs <==> d in files && files[d].isDir)
    && (d in dirs ==>
          && DOT in dirs[d].entries && DOTDOT in dirs[d].entries
          && (dirs[d].crippled ==> dirs[d].entries.Keys == {DOTDOT, DOT})
          && (files[d].nlinks == 0 ==> dirs[d].entries.Keys == {DOTDOT, DOT} && (dirs[d].crippled || d == newDir)))
  }

  ghost predicate OpenOk(files: map<int, Info>, open: map<int, nat>, i: int) {
    i in open ==> i in files && open[i] > 0
  }

  /** Every inode has a link or is open, but for one that has just been made. */
  ghost predicate InUse(files: map<int, Info>, open: map<int, nat>, i: int, newDir: int) {
    i in files ==> files[i].nlinks > 0 || i in open || i == newDir
  }

  ghost predicate WorldOk(files: map<int, Info>, dirs: map<int, Dir>, open: map<int, nat>, debtor: int, owed: int,
                          newDir: int) {
    && (forall i :: CountOk(files, dirs, i, debtor, owed))
    && (forall d, name :: TargetOk(files, dirs, d, name))
    && (forall d :: DirOk(files, dirs, d, newDir))
    && (forall i :: OpenOk(files, open, i))
    && (forall i :: InUse(files, open, i, newDir))
  }

  /** A directory has one entry at most, and it has been destroyed exactly if it has none; the root
      counts as having one. */
  ghost predicate Steady(files: map<int, Info>, dirs: map<int, Dir>, d: int) {
    d in files && d in dirs ==> files[d].nlinks <= 1 && (dirs[d].crippled <==> files[d].nlinks == 0)
  }

  ghost predicate AllSteady(files: map<int, Info>, dirs: map<int, Dir>) {
    forall d :: Steady(files, dirs, d)
  }

  ghost predicate SteadyBut(files: map<int, Info>, dirs: map<int, Dir>, i: int) {
    forall d :: d != i ==> Steady(files, dirs, d)
  }

  /** The last link of a destroyed directory goes. */
  lemma {:induction false} SteadyAgain(files: map<int, Info>, dirs: map<int, Dir>, files': map<int, Info>,
                                       dirs': map<int, Dir>, i: int)
    requires SteadyBut(files, dirs, i) && i in files && files[i].nlinks > 0
    requires i in dirs ==> dirs[i].crippled && files[i].nlinks <= 1
    requires files' == files[i := files[i].(nlinks := files[i].nlinks - 1)]
    requires forall d :: d in dirs' ==> d in dirs && dirs'[d].crippled == dirs[d].crippled
    ensures AllSteady(files', dirs')
  {
    forall e ensures Steady(files', dirs', e) {
      assert e != i ==> Steady(files, dirs, e);
    }
  }

  /** Dropping an inode, or rearranging entries, leaves directories steady. */
  lemma {:induction false} SteadyKept(files: map<int, Info>, dirs: map<int, Dir>, files': map<int, Info>,
                                      dirs': map<int, Dir>)
    requires AllSteady(files, dirs)
    requires forall d :: d in files' && d in dirs' ==>
      d in files && d in dirs && files'[d].nlinks == files[d].nlinks && dirs'[d].crippled == dirs[d].crippled
    ensures AllSteady(files', dirs')
  {
    forall d ensures Steady(files', dirs', d) {
      assert Steady(files, dirs, d);
    }
  }

  lemma {:induction false} EntriesGrow(dirs: map<int, Dir>, d: int, name: Name, target: int, dirs': map<int, Dir>)
    requires d in dirs && name !in dirs[d].entries && !Dotted(name)
    requires dirs' == dirs[d := dirs[d].(entries := dirs[d].entries[name := target])]
    ensures |Entries(dirs', target)| == |Entries(dirs, target)| + 1
    ensures forall i :: i != target ==> Entries(dirs', i) == Entries(dirs, i)
  {
    forall i ensures Entries(dirs', i) == Entries(dirs, i) + if i == target then {(d, name)} else {} {
      forall e, n ensures (e, n) in Entries(dirs', i) <==>
        (e, n) in Entries(dirs, i) || (i == target && e == d && n == name) {
      }
    }
  }

  lemma {:induction false} PlainAdded(dirs: map<int, Dir>, d: int, name: Name, target: int, dirs': map<int, Dir>)
    requires d in dirs && name !in dirs[d].entries && !Dotted(name)
    requires dirs' == dirs[d := dirs[d].(entries := dirs[d].entries[name := target])]
    ensures Plain(dirs') == Plain(dirs)[(d, name) := target]
  {
    forall e ensures e in Plain(dirs') <==> e in Plain(dirs)[(d, name) := target] {
      PlainAt(dirs, e);
      PlainAt(dirs', e);
    }
    forall e | e in Plain(dirs') ensures Plain(dirs')[e] == (Plain(dirs)[(d, name) := target])[e] {
      PlainAt(dirs, e);
      PlainAt(dirs', e);
    }
  }

  lemma {:induction false} EntriesShrink(dirs: map<int, Dir>, d: int, name: Name, target: int, dirs': map<int, Dir>)
    requires d in dirs && name in dirs[d].entries && !Dotted(name) && dirs[d].entries[name] == target
    requires dirs' == dirs[d := dirs[d].(entries := dirs[d].entries - {name})]
    ensures |Entries(dirs', target)| == |Entries(dirs, target)| - 1
    ensures forall i :: i != target ==> Entries(dirs', i) == Entries(dirs, i)
  {
    assert dirs[d].entries == (dirs[d].entries - {name})[name := target];
    assert dirs == dirs'[d := dirs'[d].(entries := dirs'[d].entries[name := target])];
    EntriesGrow(dirs', d, name, target, dirs);
  }

  lemma {:induction false} PlainRemoved(dirs: map<int, Dir>, d: int, name: Name, target: int, dirs': map<int, Dir>)
    requires d in dirs && name in dirs[d].entries && !Dotted(name) && dirs[d].entries[name] == target
    requires dirs' == dirs[d := dirs[d].(entries := dirs[d].entries - {name})]
    ensures Plain(dirs') == Plain(dirs) - {(d, name)}
  {
    forall e ensures e in Plain(dirs') <==> e in Plain(dirs) - {(d, name)} {
      PlainAt(dirs, e);
      PlainAt(dirs', e);
    }
    forall e | e in Plain(dirs') ensures Plain(dirs')[e] == (Plain(dirs) - {(d, name)})[e] {
      PlainAt(dirs, e);
      PlainAt(dirs', e);
    }
  }

  /** Adding or dropping directories that are empty, or changing no plain entry, moves no count. */
  lemma {:induction false} EntriesKept(dirs: map<int, Dir>, dirs': map<int, Dir>)
    requires forall d, name :: HasEntry(dirs, d, name) <==> HasEntry(dirs', d, name)
    requires forall d, name :: HasEntry(dirs, d, name) && HasEntry(dirs', d, name) ==>
      dirs'[d].entries[name] == dirs[d].entries[name]
    ensures forall i :: Entries(dirs', i) == Entries(dirs, i)
    ensures Plain(dirs') == Plain(dirs)
  {
    forall e ensures e in Plain(dirs') <==> e in Plain(dirs) {
      PlainAt(dirs, e);
      PlainAt(dirs', e);
    }
    forall e | e in Plain(dirs) ensures Plain(dirs')[e] == Plain(dirs)[e] {
      PlainAt(dirs, e);
      PlainAt(dirs', e);
    }
    forall i ensures Entries(dirs', i) == Entries(dirs, i) {
      forall d, name ensures (d, name) in Entries(dirs', i) <==> (d, name) in Entries(dirs, i) {
        assert HasEntry(dirs, d, name) <==> HasEntry(dirs', d, name);
      }
    }
  }

  lemma {:induction false} NamedBy(dirs: map<int, Dir>, d: int, name: Name)
    requires HasEntry(dirs, d, name)
    ensures |Entries(dirs, dirs[d].entries[name])| >= 1
  {
    assert (d, name) in Entries(dirs, dirs[d].entries[name]);
  }

  /** What a sound state means for an inode: its link count is the number of entries that name it. */
  lemma {:induction false} LinkCount(files: map<int, Info>, dirs: map<int, Dir>, open: map<int, nat>, i: int)
    requires WorldOk(files, dirs, open, -1, 0, -1) && i in files
    ensures files[i].nlinks == |Entries(dirs, i)| + if i == ROOT then 1 else 0
    ensures i != ROOT ==> (files[i].nlinks == 0 <==> forall d,
                           name :: !(HasEntry(dirs, d, name) && dirs[d].entries[name] == i))
  {
    assert CountOk(files, dirs, i, -1, 0);
    if files[i].nlinks == 0 {
      forall d, name | HasEntry(dirs, d, name) ensures dirs[d].entries[name] != i {
        NamedBy(dirs, d, name);
      }
    } else if i != ROOT {
      var e :| e in Entries(dirs, i);
      assert HasEntry(dirs, e.0, e.1);
    }
  }

  // ----- results, in terms of the state before the call -----

  function DirIn(dirs: map<int, Dir>, d: int): Dir {
    if d in dirs then dirs[d] else Dir(map[], false)
  }

  /** What the name leads to, or an error. */
  function Find(files: map<int, Info>, dirs: map<int, Dir>, d: int, name: Name): int {
    if d !in files then ENOENT else LookupResult(files[d].isDir, DirIn(dirs, d).entries, name)
  }

  function Enter(files: map<int, Info>, dirs: map<int, Dir>, d: int, name: Name, room: bool): int {
    if d !in files then ENOENT else InsertResult(files[d].isDir, DirIn(dirs, d).crippled, DirIn(dirs, d).entries, name,
                                                 room)
  }

  function Destroy(files: map<int, Info>, dirs: map<int, Dir>, d: int): int {
    if d !in files then ENOENT else DestroyResult(files[d].isDir, DirIn(dirs, d).crippled, DirIn(dirs, d).entries)
  }

  function Remove(files: map<int, Info>, dirs: map<int, Dir>, d: int, name: Name): int {
    if d !in files then ENOENT else RemoveResult(files[d].isDir, DirIn(dirs, d).crippled, DirIn(dirs, d).entries, name)
  }

  function Reparent(files: map<int, Info>, dirs: map<int, Dir>, d: int): int {
    if d !in files then ENOENT else ReparentResult(files[d].isDir, DirIn(dirs, d).crippled)
  }

  function Permit(files: map<int, Info>, d: int, allowed: bool): int {
    if d !in files then ENOENT else if allowed then 0 else EACCES
  }

  /** The path leads to an inode. */
  ghost predicate Leads(dirs: map<int, Dir>, path: Path) {
    HasEntry(dirs, path.parent, path.name) && |path.name| <= NAME_MAX
  }

  /** Finding is for entries, and every entry of a name that is short enough is found. */
  lemma {:induction false} FindIs(files: map<int, Info>, dirs: map<int, Dir>, open: map<int, nat>, path: Path)
    requires WorldOk(files, dirs, open, -1, 0, -1) && !Dotted(path.name)
    ensures Find(files, dirs, path.parent, path.name) >= 0 <==> Leads(dirs, path)
    ensures Leads(dirs, path) ==>
      && Find(files, dirs, path.parent, path.name) == dirs[path.parent].entries[path.name]
      && dirs[path.parent].entries[path.name] in files && files[dirs[path.parent].entries[path.name]].nlinks > 0
      && path.parent in files && path.parent >= 0 && !dirs[path.parent].crippled
  {
    assert DirOk(files, dirs, path.parent, -1) && TargetOk(files, dirs, path.parent, path.name);
    if HasEntry(dirs, path.parent, path.name) {
      assert CountOk(files, dirs, dirs[path.parent].entries[path.name], -1, 0);
      assert CountOk(files, dirs, path.parent, -1, 0);
      NamedBy(dirs, path.parent, path.name);
      assert path.name in dirs[path.parent].entries.Keys;
    }
  }

  /** One reference more, and one less. */
  function Opening(open: map<int, nat>, i: int): map<int, nat> {
    open[i := (if i in open then open[i] else 0) + 1]
  }

  function Closing(open: map<int, nat>, i: int): map<int, nat> {
    if i in open && open[i] > 1 then open[i := open[i] - 1] else open - {i}
  }

  /** The last reference to an inode without links is given up. */
  predicate Leaves(files: map<int, Info>, open: map<int, nat>, i: int) {
    i in open && open[i] <= 1 && i in files && files[i].nlinks == 0
  }

  /** The link count of an inode changes, modulo 2^64. */
  function Linking(files: map<int, Info>, i: int, step: int): map<int, Info> {
    if i in files then files[i := files[i].(nlinks := (files[i].nlinks + step) % NLINKS)] else files
  }

  function WithEntry(dirs: map<int, Dir>, d: int, name: Name, target: int): map<int, Dir> {
    if d in dirs then dirs[d := dirs[d].(entries := dirs[d].entries[name := target])] else dirs
  }

  function WithoutEntry(dirs: map<int, Dir>, d: int, name: Name): map<int, Dir> {
    if d in dirs then dirs[d := dirs[d].(entries := dirs[d].entries - {name})] else dirs
  }

  function Crippling(dirs: map<int, Dir>, d: int): map<int, Dir> {
    if d in dirs then dirs[d := dirs[d].(crippled := true)] else dirs
  }

  function Reparenting(dirs: map<int, Dir>, d: int, parent: int): map<int, Dir> {
    WithEntry(dirs, d, DOTDOT, parent)
  }

  /** A new directory. */
  function EmptyDir(parent: int, number: int): Dir {
    Dir(map[DOTDOT := parent, DOT := number], false)
  }

  // ----- the steps the operations are made of -----

  /** Calls into refs.c and dir.c. Where the result depends on more than the maps, the step says what was
      found: whether there was `room` for an entry, and which `number` a new inode got. */
  datatype Step =
    | OpenInode(i: int)
    | CloseInode(i: int)
    | LinkInode(i: int)
    | UnlinkInode(i: int)
    | FindEntry(d: int, name: Name)
    | InsertEntry(d: int, name: Name, target: int, room: bool)
    | RemoveEntry(d: int, name: Name)
    | DestroyDir(d: int)
    | ReparentDir(d: int, parent: int)
    | MakeDir(parent: int, number: int, room: bool)
    | MakeFile(number: int, room: bool)

  datatype Maps = Maps(files: map<int, Info>, dirs: map<int, Dir>, open: map<int, nat>)

  const NOTHING: Maps := Maps(map[], map[], map[])

  /** What a step returns. */
  function Gives(m: Maps, step: Step): int {
    match step
    case OpenInode(i) => if i in m.files then 0 else -1
    case CloseInode(i) => if i in m.open then 0 else -1
    case LinkInode(i) => if i in m.open then 0 else -1
    case UnlinkInode(i) => if i in m.open then 0 else -1
    case FindEntry(d, name) => Find(m.files, m.dirs, d, name)
    case InsertEntry(d, name, _, room) => Enter(m.files, m.dirs, d, name, room)
    case RemoveEntry(d, name) => Remove(m.files, m.dirs, d, name)
    case DestroyDir(d) => Destroy(m.files, m.dirs, d)
    case ReparentDir(d, _) => Reparent(m.files, m.dirs, d)
    case MakeDir(_, number, room) => if room then number else ENOSPC
    case MakeFile(number, room) => if room then number else -1
  }

  /** What it does. */
  function Does(m: Maps, step: Step): Maps {
    if Gives(m, step) < 0 then m
    else
      match step
      case OpenInode(i) => m.(open := Opening(m.open, i))
      case CloseInode(i) =>
        if Leaves(m.files, m.open, i) then Maps(m.files - {i}, m.dirs - {i}, Closing(m.open, i))
        else m.(open := Closing(m.open, i))
      case LinkInode(i) => m.(files := Linking(m.files, i, 1))
      case UnlinkInode(i) => m.(files := Linking(m.files, i, -1))
      case FindEntry(_, _) => m
      case InsertEntry(d, name, target, _) => m.(dirs := WithEntry(m.dirs, d, name, target))
      case RemoveEntry(d, name) => m.(dirs := WithoutEntry(m.dirs, d, name))
      case DestroyDir(d) => m.(dirs := Crippling(m.dirs, d))
      case ReparentDir(d, parent) => m.(dirs := Reparenting(m.dirs, d, parent))
      case MakeDir(parent, number, _) =>
        m.(files := m.files[number := Info(true, 0)], dirs := m.dirs[number := EmptyDir(parent, number)])
      case MakeFile(number, _) => m.(files := m.files[number := Info(false, 0)])
  }

  /** What callers see to. */
  predicate Allowed(m: Maps, step: Step) {
    match step
    case InsertEntry(_, name, target, _) => CString(name) && target in m.files
    case CloseInode(_) => ROOT in m.files
    case MakeDir(parent, number, room) =>
      (parent in m.files || parent == ROOT) && (room ==> number >= 0 && number !in m.files)
    case MakeFile(number, room) => room ==> number >= 0 && number !in m.files
    case ReparentDir(_, parent) => parent in m.files
    case _ => true
  }

  ghost predicate AllAllowed(log: seq<Step>) {
    |log| == 0 || (AllAllowed(log[..|log| - 1]) && Allowed(After(log[..|log| - 1]), log[|log| - 1]))
  }

  /** The maps after a sequence of steps, from a new disk on. */
  ghost function After(log: seq<Step>): Maps {
    if |log| == 0 then NOTHING else Does(After(log[..|log| - 1]), log[|log| - 1])
  }

  ghost predicate IsAfter(log: seq<Step>, files: map<int, Info>, dirs: map<int, Dir>, open: map<int, nat>) {
    forall u :: Look(u) ==> After(log) == Maps(files, dirs, open) && AllAllowed(log)
  }

  lemma {:induction false} AfterStep(log: seq<Step>, files: map<int, Info>, dirs: map<int, Dir>, open: map<int, nat>,
                                     step: Step, files': map<int, Info>, dirs': map<int, Dir>, open': map<int, nat>)
    requires IsAfter(log, files, dirs, open) && Allowed(Maps(files, dirs, open), step)
    requires Does(Maps(files, dirs, open), step) == Maps(files', dirs', open')
    ensures IsAfter(log + [step], files', dirs', open')
  {
    assert Look(0);
    assert (log + [step])[..|log|] == log;
  }

  lemma {:induction false} AfterMeans(log: seq<Step>, files: map<int, Info>, dirs: map<int, Dir>, open: map<int, nat>)
    requires IsAfter(log, files, dirs, open)
    ensures After(log) == Maps(files, dirs, open) && AllAllowed(log)
  {
    assert Look(0);
  }

  class Paths {
    var files: map<int, Info>
    var dirs: map<int, Dir>
    var open: map<int, nat>
    var log: seq<Step>      // the steps made so far

    ghost function Now(): Maps
      reads this
    {
      Maps(files, dirs, open)
    }

    ghost predicate Ok(debtor: int, owed: int, newDir: int)
      reads this
    {
      WorldOk(files, dirs, open, debtor, owed, newDir) && Logged()
    }

    /** The maps are what the steps made them. */
    ghost predicate Logged()
      reads this
    {
      IsAfter(log, files, dirs, open)
    }

    /** Records a step that has just been made. */
    method Note(step: Step, ghost files0: map<int, Info>, ghost dirs0: map<int, Dir>, ghost open0: map<int, nat>)
      requires IsAfter(log, files0, dirs0, open0) && Allowed(Maps(files0, dirs0, open0), step)
      requires Does(Maps(files0, dirs0, open0), step) == Now()
      modifies this`log
      ensures Logged()
    {
      AfterStep(log, files0, dirs0, open0, step, files, dirs, open);
      log := log + [step];
    }

    /** Every link count is the number of entries that name the inode, one more for the root, and every inode has a
        link or is open. */
    ghost predicate Valid()
      reads this
    {
      Ok(-1, 0, -1) && AllSteady(files, dirs) && ROOT in files
    }

    /** dir_lookup, with a reference to the inode found. */
    method LookupOpen(d: int, name: Name) returns (r: int)
      requires Ok(-1, 0, -1) && !Dotted(name)
      modifies this`open, this`log
      ensures Ok(-1, 0, -1)
      ensures r == Find(files, dirs, d, name)
      ensures r < 0 ==> open == old(open)
      ensures r >= 0 ==>
        && r in files && HasEntry(dirs, d, name) && dirs[d].entries[name] == r && files[r].nlinks > 0
        && open == Opening(old(open), r)
    {
      assert DirOk(files, dirs, d, -1);
      r := Find(files, dirs, d, name);
      Note(FindEntry(d, name), files, dirs, open);
      assert TargetOk(files, dirs, d, name);
      if r < 0 {
        return;
      }
      assert CountOk(files, dirs, r, -1, 0);
      NamedBy(dirs, d, name);
      var res := RefsOpen(r, -1);
      assert res == 0;
    }

    method RefsOpen(i: int, ghost newDir: int) returns (r: int)
      requires Logged() && (forall i :: OpenOk(files, open, i)) && forall i :: InUse(files, open, i, newDir)
      modifies this`open, this`log
      ensures Logged() && (forall i :: OpenOk(files, open, i)) && forall i :: InUse(files, open, i, newDir)
      ensures r == if i in files then 0 else -1
      ensures open == if i in files then Opening(old(open), i) else old(open)
    {
      assert OpenOk(files, open, i);
      ghost var was := open;
      if i in open {
        open := open[i := open[i] + 1];
      } else if i in files {
        open := open[i := 1];
      }
      forall j ensures OpenOk(files, open, j) {
        assert OpenOk(files, was, j);
      }
      forall j ensures InUse(files, open, j, newDir) {
        assert InUse(files, was, j, newDir);
      }
      Note(OpenInode(i), files, dirs, was);
      return if i in open then 0 else -1;
    }

    /** Gives a reference up; an inode with neither references nor links is freed. */
    method RefsClose(i: int, ghost newDir: int) returns (r: int)
      requires Ok(-1, 0, newDir) && ROOT in files
      modifies this
      ensures Ok(-1, 0, newDir) && Plain(dirs) == Plain(old(dirs))
      ensures r == if i in old(open) then 0 else -1
      ensures r < 0 ==> files == old(files) && dirs == old(dirs) && open == old(open)
      ensures r == 0 ==> i in old(files) && old(open)[i] > 0 && open == Closing(old(open), i)
      ensures r == 0 ==>
        && files == (if old(Leaves(files, open, i)) then old(files) - {i} else old(files))
        && dirs == if old(Leaves(files, open, i)) then old(dirs) - {i} else old(dirs)
      ensures old(ROOT in files) ==> ROOT in files
      ensures old(AllSteady(files, dirs)) ==> AllSteady(files, dirs)
    {
      assert OpenOk(files, open, i) && CountOk(files, dirs, ROOT, -1, 0);
      ghost var files0, dirs0, open0 := files, dirs, open;
      if i !in open {
        Note(CloseInode(i), files0, dirs0, open0);
        return -1;
      }
      if open[i] > 1 {
        open := open[i := open[i] - 1];
        forall j ensures OpenOk(files, open, j) {
          assert OpenOk(files0, open0, j);
        }
        forall j ensures InUse(files, open, j, newDir) {
          assert InUse(files0, open0, j, newDir);
        }
        Note(CloseInode(i), files0, dirs0, open0);
        return 0;
      }
      open := open - {i};
      if files[i].nlinks == 0 {
        files := files - {i};
        dirs := dirs - {i};
        Freed(files0, dirs0, open0, i, newDir);
      }
      forall j ensures OpenOk(files, open, j) {
        assert OpenOk(files0, open0, j);
      }
      forall j ensures InUse(files, open, j, newDir) {
        assert InUse(files0, open0, j, newDir);
      }
      if AllSteady(files0, dirs0) {
        SteadyKept(files0, dirs0, files, dirs);
      }
      Note(CloseInode(i), files0, dirs0, open0);
      return 0;
    }

    /** dir_insert: afterwards `target` is owed a link. */
    method DirInsert(d: int, name: Name, target: int, room: bool, ghost newDir: int) returns (r: int)
      requires Ok(-1, 0, newDir) && Plainly(name) && target in files && d != newDir
      modifies this`dirs, this`log
      ensures r == Enter(files, old(dirs), d, name, room)
      ensures r <= 0 && (r < 0 ==> dirs == old(dirs) && Ok(-1, 0, newDir))
      ensures r == 0 ==>
        && d in old(dirs) && name !in old(dirs)[d].entries && !old(dirs)[d].crippled
        && dirs == WithEntry(old(dirs), d, name, target) && Plain(dirs) == Plain(old(dirs))[(d, name) := target]
        && Ok(target, 1, newDir)
      ensures old(AllSteady(files, dirs)) ==> AllSteady(files, dirs)
    {
      assert DirOk(files, dirs, d, newDir);
      r := Enter(files, dirs, d, name, room);
      ghost var dirs0 := dirs;
      if r == 0 {
        dirs := WithEntry(dirs, d, name, target);
        Inserted(files, dirs0, open, d, name, target, newDir);
        if AllSteady(files, dirs0) {
          SteadyKept(files, dirs0, files, dirs);
        }
      }
      Note(InsertEntry(d, name, target, room), files, dirs0, open);
    }

    /** dir_remove: afterwards the inode returned has a link too many, or is no longer owed one. */
    method DirRemove(d: int, name: Name, ghost debtor: int, ghost owed: int) returns (r: int)
      requires Ok(debtor, owed, -1) && !Dotted(name)
      requires owed == 0 || (HasEntry(dirs, d, name) && dirs[d].entries[name] == debtor)
      modifies this`dirs, this`log
      ensures r == Remove(files, old(dirs), d, name)
      ensures r < 0 ==> dirs == old(dirs) && Ok(debtor, owed, -1)
      ensures r >= 0 ==>
        && HasEntry(old(dirs), d, name) && old(dirs)[d].entries[name] == r && r in files
        && dirs == WithoutEntry(old(dirs), d, name) && Plain(dirs) == Plain(old(dirs)) - {(d, name)}
        && Ok(r, owed - 1, -1)
      ensures old(AllSteady(files, dirs)) ==> AllSteady(files, dirs)
    {
      assert DirOk(files, dirs, d, -1) && TargetOk(files, dirs, d, name);
      r := Remove(files, dirs, d, name);
      ghost var dirs0 := dirs;
      if r >= 0 {
        dirs := WithoutEntry(dirs, d, name);
        Removed(files, dirs0, open, d, name, r, debtor, owed);
        if AllSteady(files, dirs0) {
          SteadyKept(files, dirs0, files, dirs);
        }
      }
      Note(RemoveEntry(d, name), files, dirs0, open);
    }

    /** refs_link: counts the link that was owed. This makes the count right exactly if it has not
        reached the largest number there is. */
    method RefsLink(i: int, ghost newDir: int) returns (r: int)
      requires Ok(i, 1, newDir) && i in open
      modifies this`files, this`log
      ensures r == 0 && i in old(files) && files == Linking(old(files), i, 1)
      ensures Ok(-1, 0, if i == newDir then -1 else newDir) <==> old(files)[i].nlinks < NLINKS - 1
      ensures Logged()
    {
      assert OpenOk(files, open, i) && CountOk(files, dirs, i, i, 1);
      ghost var files0 := files;
      files := Linking(files, i, 1);
      Note(LinkInode(i), files0, dirs, open);
      if files0[i].nlinks < NLINKS - 1 {
        LinkCounted(files0, files, dirs, open, i, 1, newDir, if i == newDir then -1 else newDir);
      } else {
        assert !CountOk(files, dirs, i, -1, 0);
      }
      return 0;
    }

    /** refs_unlink: drops the link that was too many. */
    method RefsUnlink(i: int) returns (r: int)
      requires Ok(i, -1, -1) && i in open
      requires i in dirs ==> dirs[i].crippled
      modifies this`files, this`log
      ensures r == 0 && i in old(files) && old(files)[i].nlinks > 0
      ensures files == Linking(old(files), i, -1) == old(files)[i := old(files)[i].(nlinks := old(files)[i].nlinks - 1)]
      ensures Ok(-1, 0, -1)
    {
      assert OpenOk(files, open, i) && CountOk(files, dirs, i, i, -1) && DirOk(files, dirs, i, -1);
      ghost var files0 := files;
      files := Linking(files, i, -1);
      Note(UnlinkInode(i), files0, dirs, open);
      LinkCounted(files0, files, dirs, open, i, -1, -1, -1);
      return 0;
    }

    /** dir_destroy. */
    method DirDestroy(d: int) returns (r: int)
      requires Ok(-1, 0, -1)
      modifies this`dirs, this`log
      ensures Ok(-1, 0, -1) && Plain(dirs) == Plain(old(dirs))
      ensures r == Destroy(files, old(dirs), d)
      ensures d in files && d !in old(dirs) ==> r == ENOTDIR
      ensures d in old(dirs) && !old(dirs)[d].crippled ==>
        r == if OnlyDotted(old(dirs)[d].entries) then 0 else ENOTEMPTY
      ensures r <= 0 && (r < 0 ==> dirs == old(dirs))
      ensures r == 0 ==> d in old(dirs) && old(dirs)[d].entries.Keys == {DOTDOT, DOT} && dirs == Crippling(old(dirs), d)
      ensures old(AllSteady(files, dirs)) && r == 0 ==> SteadyBut(files, dirs, d) && d in files && files[d].nlinks <= 1
    {
      assert DirOk(files, dirs, d, -1);
      r := Destroy(files, dirs, d);
      ghost var dirs0 := dirs;
      if d in dirs {
        DotsAlone(dirs[d].entries);
      }
      if r == 0 {
        dirs := Crippling(dirs, d);
        DirChanged(files, dirs0, open, d, dirs[d]);
        if AllSteady(files, dirs0) {
          assert Steady(files, dirs0, d);
          forall e | e != d ensures Steady(files, dirs, e) {
            assert Steady(files, dirs0, e);
          }
        }
      }
      Note(DestroyDir(d), files, dirs0, open);
    }

    /** dir_reparent. */
    method DirReparent(d: int, parent: int) returns (r: int)
      requires Ok(-1, 0, -1) && parent in files
      modifies this`dirs, this`log
      ensures Ok(-1, 0, -1) && Plain(dirs) == Plain(old(dirs))
      ensures r == Reparent(files, old(dirs), d)
      ensures r < 0 ==> dirs == old(dirs)
      ensures r == 0 ==> d in old(dirs) && dirs == Reparenting(old(dirs), d, parent)
      ensures old(AllSteady(files, dirs)) ==> AllSteady(files, dirs)
    {
      assert DirOk(files, dirs, d, -1);
      r := Reparent(files, dirs, d);
      ghost var dirs0 := dirs;
      if r == 0 {
        dirs := Reparenting(dirs, d, parent);
        DirChanged(files, dirs0, open, d, dirs[d]);
        if AllSteady(files, dirs0) {
          SteadyKept(files, dirs0, files, dirs);
        }
      }
      Note(ReparentDir(d, parent), files, dirs0, open);
    }

    /** dir_create: a new directory, without links so far. `number` is the inode number it gets. */
    method DirCreate(parent: int, number: int, room: bool) returns (r: int)
      requires Ok(-1, 0, -1) && number !in files && number >= 0 && (parent in files || parent == ROOT)
      modifies this`files, this`dirs, this`log
      ensures r == if room then number else ENOSPC
      ensures !room ==> files == old(files) && dirs == old(dirs) && Ok(-1, 0, -1)
      ensures room ==>
        && files == old(files)[number := Info(true, 0)]
        && Ok(if number == ROOT then ROOT else -1, if number == ROOT then 1 else 0, number)
        && dirs == old(dirs)[number := EmptyDir(parent, number)]
    {
      ghost var files0, dirs0 := files, dirs;
      if !room {
        Note(MakeDir(parent, number, room), files0, dirs0, open);
        return ENOSPC;
      }
      files := files[number := Info(true, 0)];
      dirs := dirs[number := EmptyDir(parent, number)];
      Created(files0, dirs0, open, number, dirs[number]);
      Note(MakeDir(parent, number, room), files0, dirs0, open);
      return number;
    }

    /** Removes an entry with its link, and closes the inode: dir_remove, refs_unlink, refs_close. */
    method DropEntry(d: int, name: Name, i: int)
      requires Ok(-1, 0, -1) && HasEntry(dirs, d, name) && |name| <= NAME_MAX && dirs[d].entries[name] == i && i in open
      requires SteadyBut(files, dirs, i) && ROOT in files
      requires i in dirs ==> i in files && dirs[i].crippled && files[i].nlinks <= 1
      modifies this
      ensures Valid() && Plain(dirs) == Plain(old(dirs)) - {(d, name)}
      ensures i in old(files) && old(files)[i].nlinks > 0
      ensures old(open)[i] > 0 && open == Closing(old(open), i)
      ensures files == Dropped(old(files), i, old(open)[i] > 1)
      ensures dirs == if i in files then WithoutEntry(old(dirs), d, name) else WithoutEntry(old(dirs), d, name) - {i}
    {
      assert DirOk(files, dirs, d, -1) && OpenOk(files, open, i) && CountOk(files, dirs, i, -1, 0);
      NamedBy(dirs, d, name);
      NotCrippled(d);
      ghost var files0, dirs0 := files, dirs;
      var removed := DirRemove(d, name, -1, 0);
      assert removed == i;
      var unlinked := RefsUnlink(i);
      SteadyAgain(files0, dirs0, files, dirs, i);
      var closed := RefsClose(i, -1);
      assert unlinked == 0 && closed == 0;
    }

    /** A new file without links, which the caller holds open. */
    method FileCreate(number: int)
      requires Valid() && number !in files && number >= 0
      modifies this
      ensures Valid() && files == old(files)[number := Info(false, 0)] && dirs == old(dirs)
      ensures open == old(open)[number := 1]
    {
      ghost var files0 := files;
      assert OpenOk(files, open, number) && DirOk(files, dirs, number, -1);
      files := files[number := Info(false, 0)];
      FileAdded(files0, dirs, open, number);
      SteadyKept(files0, dirs, files, dirs);
      Note(MakeFile(number, true), files0, dirs, open);
      var r := RefsOpen(number, number);
      forall i ensures InUse(files, open, i, -1) && DirOk(files, dirs, i, -1) {
        assert InUse(files, open, i, number) && DirOk(files, dirs, i, number);
      }
    }

    // ----- the operations -----

    /** mkfs_path: makes a root directory, which is its own parent, and gives it one link. */
    constructor ()
      ensures Valid() && files == map[ROOT := Info(true, 1)] && open == map[]
      ensures dirs == map[ROOT := EmptyDir(ROOT, ROOT)]
    {
      files, dirs, open, log := map[], map[], map[], [];
      new;
      assert Entries(dirs, ROOT) == {};
      var root := DirCreate(0, ROOT, true);
      assert root == 0;
      var res := RefsOpen(root, root);
      assert res == 0;
      res := RefsLink(root, root);
      assert res == 0;
      res := RefsClose(root, -1);
      assert res == 0;
    }

    /** Enters an open inode that is not a directory under a new name. */
    method PathLink(path: Path, inode: int, allowed: bool, room: bool) returns (r: int)
      requires Valid() && Plainly(path.name) && inode in open
      modifies this
      ensures Valid() <==> !(r == 0 && inode in old(files) && old(files)[inode].nlinks == NLINKS - 1)
      ensures Logged()
      ensures open == old(open)
      ensures r <= 0 && (r < 0 ==> files == old(files) && dirs == old(dirs))
      ensures r == 0 ==>
        && path.valid && inode in old(files) && !old(files)[inode].isDir
        && path.parent in old(dirs) && path.name !in old(dirs)[path.parent].entries
        && dirs == WithEntry(old(dirs), path.parent, path.name, inode)
        && files == Linking(old(files), inode, 1)
      ensures !path.valid ==> r == -1
      ensures path.valid && inode in old(dirs) ==> r == EPERM
      ensures path.valid && inode !in old(dirs) ==>
        r == if path.parent !in old(files) then ENOENT else if !allowed then EACCES
             else if path.parent !in old(dirs) then ENOTDIR else if old(dirs)[path.parent].crippled then ENOENT
             else if |path.name| > NAME_MAX then ENAMETOOLONG
             else if path.name in old(dirs)[path.parent].entries then EEXIST else if room then 0 else ENOSPC
    {
      assert OpenOk(files, open, inode) && DirOk(files, dirs, inode, -1) && DirOk(files, dirs, path.parent, -1);
      if !path.valid {
        return -1;
      }
      if files[inode].isDir {
        return EPERM;
      }
      assert CountOk(files, dirs, path.parent, -1, 0);
      r := Permit(files, path.parent, allowed);
      if r < 0 {
        return;
      }
      r := DirInsert(path.parent, path.name, inode, room, -1);
      if r < 0 {
        return;
      }
      var linked := RefsLink(inode, -1);
      assert linked == 0;
      assert Ok(-1, 0, -1) <==> old(files)[inode].nlinks < NLINKS - 1;
      assert CountOk(old(files), old(dirs), inode, -1, 0);
      forall d ensures Steady(files, dirs, d) {
        assert old(Steady(files, dirs, d)) && old(DirOk(files, dirs, d, -1));
      }
    }

    /** Removes the entry of an inode that is not a directory. On a directory the call fails, and
        does not give up the reference it has taken. */
    method PathUnlink(path: Path, allowed: bool) returns (r: int)
      requires Valid() && Plainly(path.name)
      modifies this
      ensures Valid()
      ensures r <= 0 && (r < 0 ==> files == old(files) && dirs == old(dirs))
      ensures open == if path.valid && Leads(old(dirs), path) && old(dirs)[path.parent].entries[path.name] in old(dirs)
                      then Opening(old(open), old(dirs)[path.parent].entries[path.name]) else old(open)
      ensures r == 0 ==>
        && HasEntry(old(dirs), path.parent, path.name)
        && var i := old(dirs)[path.parent].entries[path.name];
        && i in old(files) && !old(files)[i].isDir && old(files)[i].nlinks > 0
        && dirs == WithoutEntry(old(dirs), path.parent, path.name)
        && files == Dropped(old(files), i, i in old(open))
      ensures !path.valid ==> r == -1
      ensures path.valid && !Leads(old(dirs), path) ==> r == ENOENT
      ensures path.valid && Leads(old(dirs), path) ==>
        r == if old(dirs)[path.parent].entries[path.name] in old(dirs) then EPERM else if !allowed then EACCES else 0
    {
      FindIs(files, dirs, open, path);
      if !path.valid {
        return -1;
      }
      var inode := LookupOpen(path.parent, path.name);
      assert CountOk(files, dirs, inode, -1, 0);
      if inode < 0 {
        return ENOENT;
      }
      assert DirOk(files, dirs, inode, -1) && old(OpenOk(files, open, inode));
      if files[inode].isDir {
        return EPERM;
      }
      NamedBy(dirs, path.parent, path.name);
      r := Permit(files, path.parent, allowed);
      if r < 0 {
        var closed := RefsClose(inode, -1);
        Reopened(old(open), open, inode);
        return;
      }
      DropEntry(path.parent, path.name, inode);
      Reopened(old(open), open, inode);
      return 0;
    }

    /** Makes a directory; `number` is the inode number it would get, `created` whether there is room
        for it. If the call fails, nothing is left behind. */
    method PathMkdir(path: Path, number: int, created: bool, allowed: bool, chown: int, chmod: int,
                     room: bool) returns (r: int)
      requires Valid() && Plainly(path.name) && number !in files && number >= 0
      modifies this
      ensures Valid() && open == old(open)
      ensures r <= 0 && (r < 0 ==> files == old(files) && dirs == old(dirs))
      ensures r == 0 ==>
        && path.valid && path.parent in old(dirs) && path.name !in old(dirs)[path.parent].entries
        && files == old(files)[number := Info(true, 1)]
        && dirs == WithEntry(old(dirs)[number := EmptyDir(path.parent, number)], path.parent, path.name, number)
      ensures r == if !path.valid then -1 else if path.parent !in old(files) then ENOENT else if !allowed then EACCES
                   else if !created then ENOSPC else if chown < 0 then chown else if chmod < 0 then chmod
                   else if path.parent !in old(dirs) then ENOTDIR else if old(dirs)[path.parent].crippled then ENOENT
                   else if |path.name| > NAME_MAX then ENAMETOOLONG
                   else if path.name in old(dirs)[path.parent].entries then EEXIST else if room then 0 else ENOSPC
    {
      assert DirOk(files, dirs, path.parent, -1);
      if !path.valid {
        return -1;
      }
      r := Permit(files, path.parent, allowed);
      if r < 0 {
        return;
      }
      assert DirOk(files, dirs, number, -1) && OpenOk(files, open, number);
      var directory := DirCreate(path.parent, number, created);
      if directory < 0 {
        return directory;
      }
      r := EnterNew(path, number, chown, chmod, room, old(files), old(dirs));
    }

    /** The second half: the directory is there, and nothing refers to it yet. */
    method EnterNew(path: Path, number: int, chown: int, chmod: int, room: bool, ghost files0: map<int, Info>,
                    ghost dirs0: map<int, Dir>) returns (r: int)
      requires NewDir(path, number, files0, dirs0) && number !in open
      modifies this
      ensures Ok(-1, 0, -1) && AllSteady(files, dirs) && open == old(open) && r <= 0
      ensures r == if chown < 0 then chown else if chmod < 0 then chmod
                   else Enter(old(files), old(dirs), path.parent, path.name, room)
      ensures r < 0 ==> files == files0 && dirs == dirs0
      ensures r == 0 ==> path.parent in old(dirs) && path.name !in old(dirs)[path.parent].entries
      ensures r == 0 ==>
        files == old(files)[number := Info(true, 1)] && dirs == WithEntry(old(dirs), path.parent, path.name, number)
    {
      var ores := RefsOpen(number, number);
      assert ores == 0;
      if chown < 0 {
        GiveUp(number, files0, dirs0, old(open));
        return chown;
      }
      if chmod < 0 {
        GiveUp(number, files0, dirs0, old(open));
        return chmod;
      }
      r := InsertNew(path, number, room, files0, dirs0, old(open));
    }

    /** A new directory for the path, on top of `files0` and `dirs0`. */
    ghost predicate NewDir(path: Path, number: int, files0: map<int, Info>, dirs0: map<int, Dir>)
      reads this
    {
      && Ok(-1, 0, number) && AllSteady(files0, dirs0) && Plainly(path.name) && path.parent != number
      && number !in files0 && number !in dirs0 && ROOT in files0
      && files == files0[number := Info(true, 0)] && dirs == dirs0[number := EmptyDir(path.parent, number)]
    }

    /** Enters an open new directory, or gives it up. */
    method InsertNew(path: Path, number: int, room: bool, ghost files0: map<int, Info>, ghost dirs0: map<int, Dir>,
                     ghost open0: map<int, nat>) returns (r: int)
      requires NewDir(path, number, files0, dirs0) && number !in open0 && open == open0[number := 1]
      modifies this
      ensures Ok(-1, 0, -1) && AllSteady(files, dirs) && open == open0 && r <= 0
      ensures r == Enter(old(files), old(dirs), path.parent, path.name, room)
      ensures r < 0 ==> files == files0 && dirs == dirs0
      ensures r == 0 ==> path.parent in old(dirs) && path.name !in old(dirs)[path.parent].entries
      ensures r == 0 ==>
        files == old(files)[number := Info(true, 1)] && dirs == WithEntry(old(dirs), path.parent, path.name, number)
    {
      r := DirInsert(path.parent, path.name, number, room, number);
      if r < 0 {
        GiveUp(number, files0, dirs0, open0);
        return;
      }
      forall d | d != number ensures Steady(files, dirs, d) {
        assert Steady(files0, dirs0, d);
      }
      LinkNew(number);
    }

    /** Counts the link of a new directory, and closes it. */
    method LinkNew(number: int)
      requires Ok(number, 1, number) && number in open && open[number] == 1 && ROOT in files
      requires SteadyBut(files, dirs, number) && number in files && files[number] == Info(true, 0)
      requires number in dirs ==> !dirs[number].crippled
      modifies this
      ensures Ok(-1, 0, -1) && AllSteady(files, dirs)
      ensures files == old(files)[number := Info(true, 1)] && dirs == old(dirs) && open == old(open) - {number}
    {
      var linked := RefsLink(number, number);
      assert AllSteady(files, dirs) by {
        forall d ensures Steady(files, dirs, d) {
          assert d != number ==> Steady(old(files), dirs, d);
        }
      }
      var closed := RefsClose(number, -1);
      assert linked == 0 && closed == 0;
    }

    /** Closes a new directory that has no link: it is gone again. */
    method GiveUp(number: int, ghost files0: map<int, Info>, ghost dirs0: map<int, Dir>, ghost open0: map<int, nat>)
      requires Ok(-1, 0, number) && number !in files0 && number !in dirs0 && number !in open0 && ROOT in files
      requires files == files0[number := Info(true, 0)] && open == open0[number := 1] && number in dirs
      requires dirs - {number} == dirs0
      modifies this
      ensures Ok(-1, 0, -1) && files == files0 && dirs == dirs0 && open == open0
    {
      var closed := RefsClose(number, number);
      assert closed == 0;
      forall d ensures DirOk(files, dirs, d, -1) && InUse(files, open, d, -1) {
        assert DirOk(files, dirs, d, number) && InUse(files, open, d, number);
      }
    }

    /** Removes an empty directory. */
    method PathRmdir(path: Path, allowed: bool) returns (r: int)
      requires Valid() && Plainly(path.name)
      modifies this
      ensures Valid() && open == old(open)
      ensures r <= 0 && (r < 0 ==> files == old(files) && dirs == old(dirs))
      ensures r == 0 ==>
        && HasEntry(old(dirs), path.parent, path.name)
        && var i := old(dirs)[path.parent].entries[path.name];
        && i in old(files) && i in old(dirs) && old(dirs)[i].entries.Keys == {DOTDOT, DOT} && old(files)[i].nlinks > 0
        && files == Dropped(old(files), i, i in old(open))
        && Now() == Without(old(Now()).(dirs := Crippling(old(dirs), i)), path.parent, path.name, i)
        && Plain(dirs) == Plain(old(dirs)) - {(path.parent, path.name)}
      ensures !path.valid ==> r == -1
      ensures path.valid && !Leads(old(dirs), path) ==> r == ENOENT
      ensures path.valid && Leads(old(dirs), path) ==>
        var i := old(dirs)[path.parent].entries[path.name];
        r == if !allowed then EACCES else if i !in old(dirs) then ENOTDIR
             else if OnlyDotted(old(dirs)[i].entries) then 0 else ENOTEMPTY
    {
      FindIs(files, dirs, open, path);
      if !path.valid {
        return -1;
      }
      var inode := LookupOpen(path.parent, path.name);
      if inode < 0 {
        return ENOENT;
      }
      assert DirOk(files, dirs, inode, -1) && old(OpenOk(files, open, inode));
      NamedBy(dirs, path.parent, path.name);
      assert CountOk(files, dirs, inode, -1, 0) && Steady(files, dirs, inode);
      NotCrippled(path.parent);
      assert path.name in dirs[path.parent].entries.Keys;
      r := Permit(files, path.parent, allowed);
      if r == 0 {
        r := DirDestroy(inode);
      }
      if r < 0 {
        var closed := RefsClose(inode, -1);
        Reopened(old(open), open, inode);
        return;
      }
      DropEntry(path.parent, path.name, inode);
      Reopened(old(open), open, inode);
      return 0;
    }

    /** The first half of a rename: removes what is at the target. */
    method ClearTarget(dst: Path, inode: int, isDir: bool) returns (r: int)
      requires Valid() && Plainly(dst.name) && inode in open && (inode in dirs <==> isDir)
      modifies this
      ensures Valid() && open == old(open) && inode in files
      ensures r <= 0 && (r < 0 ==> files == old(files) && dirs == old(dirs))
      ensures Plain(dirs) == if r == 0 && Leads(old(dirs), dst)
                             then Plain(old(dirs)) - {(dst.parent, dst.name)} else Plain(old(dirs))
      ensures inode in dirs <==> isDir
      ensures r == 0 && isDir && inode in old(dirs) ==>
        (dirs[inode].crippled <==>
          old(dirs)[inode].crippled || (Leads(old(dirs), dst) && old(dirs)[dst.parent].entries[dst.name] == inode))
      ensures !Leads(old(dirs), dst) ==> r == 0
      ensures Leads(old(dirs), dst) ==>
        var t := old(dirs)[dst.parent].entries[dst.name];
        r == if t in old(dirs) && !isDir then EISDIR else if t !in old(dirs) && isDir then ENOTDIR
             else if t in old(dirs) && !OnlyDotted(old(dirs)[t].entries) then ENOTEMPTY else 0
      ensures r == 0 ==> Now() == Cleared(old(Now()), dst)
      ensures r == 0 ==> if Leads(old(dirs), dst)
        then dst.parent in files && dst.parent in dirs && !dirs[dst.parent].crippled
          && dst.name !in dirs[dst.parent].entries
        else files == old(files) && dirs == old(dirs)
      ensures r == 0 && Leads(old(dirs), dst) ==>
        var t := old(dirs)[dst.parent].entries[dst.name];
        t in old(files) && old(files)[t].nlinks > 0 && files == Dropped(old(files), t, t in old(open))
    {
      FindIs(files, dirs, open, dst);
      assert OpenOk(files, open, inode) && CountOk(files, dirs, inode, -1, 0);
      var current := LookupOpen(dst.parent, dst.name);
      if current < 0 {
        return 0;
      }
      assert DirOk(files, dirs, current, -1) && OpenOk(files, open, current) && old(OpenOk(files, open, current));
      NamedBy(dirs, dst.parent, dst.name);
      assert CountOk(files, dirs, current, -1, 0);
      NotCrippled(dst.parent);
      assert dst.name in dirs[dst.parent].entries.Keys;
      assert !DottedIn(dirs[dst.parent].entries, dst.name);
      r := MakeWay(current, isDir);
      if r == 0 {
        DropEntry(dst.parent, dst.name, current);
        ClearedIs(old(files), old(dirs), old(open), files, dirs, dst, current);
      }
      Reopened(old(open), open, current);
    }

    /** An open inode is to make way for a directory, or for a file. If it cannot, it is closed; if it is a directory,
        it is destroyed. */
    method MakeWay(current: int, isDir: bool) returns (r: int)
      requires Valid() && current in open && current in files && files[current].nlinks > 0
      modifies this
      ensures Ok(-1, 0, -1) && r <= 0 && files == old(files) && Plain(dirs) == Plain(old(dirs))
      ensures r == if current in old(dirs) && !isDir then EISDIR else if current !in old(dirs) && isDir then ENOTDIR
                   else if current in old(dirs) && !OnlyDotted(old(dirs)[current].entries) then ENOTEMPTY else 0
      ensures r < 0 ==> Valid() && dirs == old(dirs) && open == Closing(old(open), current)
      ensures r == 0 ==> open == old(open) && SteadyBut(files, dirs, current) && dirs == Crippling(old(dirs), current)
      ensures r == 0 && current in dirs ==> dirs[current].crippled && files[current].nlinks <= 1
    {
      assert DirOk(files, dirs, current, -1) && Steady(files, dirs, current);
      r := 0;
      if files[current].isDir {
        r := EISDIR;
        if isDir {
          r := DirDestroy(current);
        }
      } else if isDir {
        r := ENOTDIR;
      }
      if r < 0 {
        var closed := RefsClose(current, -1);
      }
    }

    /** Moves an entry, in place of what is at the target. When the target has been removed and there
        is no room for the new entry, the target is gone all the same; no other error changes an
        entry. `aborted` says that the source stops at its last assertion: an empty directory has
        been moved onto itself. */
    method PathRename(dst: Path, src: Path, allowedDst: bool, allowedSrc: bool,
                      room: bool) returns (aborted: bool, r: int)
      requires Valid() && Plainly(dst.name) && Plainly(src.name)
      modifies this
      ensures Valid() && (!aborted ==> open == old(open))
      ensures r <= 0 && (aborted ==> r == 0)
      ensures !src.valid || !dst.valid ==> r == -1
      ensures src.valid && dst.valid && (!Leads(old(dirs), src) || dst.parent !in old(files)) ==> r == ENOENT
      ensures src.valid && dst.valid && Leads(old(dirs), src) && dst.parent in old(files) ==>
        var i := old(dirs)[src.parent].entries[src.name];
        r == if !allowedDst || !allowedSrc then EACCES
             else if !Leads(old(dirs), dst) then
               if dst.parent !in old(dirs) then ENOTDIR else if old(dirs)[dst.parent].crippled then ENOENT
               else if |dst.name| > NAME_MAX then ENAMETOOLONG else if room then 0 else ENOSPC
             else
               var t := old(dirs)[dst.parent].entries[dst.name];
               if t in old(dirs) && i !in old(dirs) then EISDIR else if t !in old(dirs) && i in old(dirs) then ENOTDIR
               else if t in old(dirs) && !OnlyDotted(old(dirs)[t].entries) then ENOTEMPTY
               else if room then 0 else ENOSPC
      ensures r < 0 ==> Plain(dirs) == if r == ENOSPC && Leads(old(dirs), dst)
                                       then Plain(old(dirs)) - {(dst.parent, dst.name)} else Plain(old(dirs))
      ensures r == 0 ==>
        && HasEntry(old(dirs), src.parent, src.name)
        && var i := old(dirs)[src.parent].entries[src.name];
        && Plain(dirs) == Plain(old(dirs))[(dst.parent, dst.name) := i] - {(src.parent, src.name)}
        && (aborted <==>
              && i in old(dirs) && HasEntry(old(dirs), dst.parent, dst.name)
              && old(dirs)[dst.parent].entries[dst.name] == i)
        && (i in old(dirs) && i in dirs && !aborted ==>
          DOTDOT in dirs[i].entries && dirs[i].entries[DOTDOT] == dst.parent)
      ensures if r == 0 || (r == ENOSPC && Leads(old(dirs), dst))
        then Now() == Renamed(old(Now()), dst, src, r) else Now() == old(Now())
      ensures r == 0 && Leads(old(dirs), dst) ==>
        var t := old(dirs)[dst.parent].entries[dst.name];
        && t in old(files) && old(files)[t].nlinks > 0
        && files == Dropped(old(files), t, t in old(open) || aborted)
      ensures r == 0 && !Leads(old(dirs), dst) ==> files == old(files)
    {
      aborted := false;
      FindIs(files, dirs, open, src);
      FindIs(files, dirs, open, dst);
      assert DirOk(files, dirs, dst.parent, -1);
      if !src.valid || !dst.valid {
        return false, -1;
      }
      var inode := LookupOpen(src.parent, src.name);
      assert CountOk(files, dirs, inode, -1, 0);
      if inode < 0 {
        return false, ENOENT;
      }
      assert DirOk(files, dirs, inode, -1) && OpenOk(files, open, inode) && old(OpenOk(files, open, inode));
      r := Permit(files, dst.parent, allowedDst);
      if r == 0 {
        r := Permit(files, src.parent, allowedSrc);
      }
      if r < 0 {
        var closed := RefsClose(inode, -1);
        Reopened(old(open), open, inode);
        return;
      }
      aborted, r := RenameOpen(dst, src, inode, room);
      if !aborted {
        Reopened(old(open), open, inode);
      }
    }

    /** A rename of an open inode, which is closed at the end. */
    method RenameOpen(dst: Path, src: Path, inode: int, room: bool) returns (aborted: bool, r: int)
      requires Valid() && Plainly(dst.name) && Plainly(src.name) && Leads(dirs, src) && dst.parent in files
      requires inode in open && dirs[src.parent].entries[src.name] == inode
      modifies this
      ensures Valid() && (!aborted ==> open == Closing(old(open), inode))
      ensures r <= 0 && (aborted ==> r == 0)
      ensures r == if !Leads(old(dirs), dst) then
                     if dst.parent !in old(dirs) then ENOTDIR else if old(dirs)[dst.parent].crippled then ENOENT
                     else if |dst.name| > NAME_MAX then ENAMETOOLONG else if room then 0 else ENOSPC
                   else
                     var t := old(dirs)[dst.parent].entries[dst.name];
                     if t in old(dirs) && inode !in old(dirs) then EISDIR
                     else if t !in old(dirs) && inode in old(dirs) then ENOTDIR
                     else if t in old(dirs) && !OnlyDotted(old(dirs)[t].entries) then ENOTEMPTY
                     else if room then 0 else ENOSPC
      ensures r < 0 ==> Plain(dirs) == if r == ENOSPC && Leads(old(dirs), dst)
                                       then Plain(old(dirs)) - {(dst.parent, dst.name)} else Plain(old(dirs))
      ensures r == 0 ==>
        && Plain(dirs) == Plain(old(dirs))[(dst.parent, dst.name) := inode] - {(src.parent, src.name)}
        && (aborted <==>
              && inode in old(dirs) && HasEntry(old(dirs), dst.parent, dst.name)
              && old(dirs)[dst.parent].entries[dst.name] == inode)
        && (inode in old(dirs) && inode in dirs && !aborted ==>
          DOTDOT in dirs[inode].entries && dirs[inode].entries[DOTDOT] == dst.parent)
      ensures Now() == if r == 0 then MovedAndClosed(Cleared(old(Now()), dst), dst, src, inode)
                       else if r == ENOSPC then Does(Cleared(old(Now()), dst), CloseInode(inode))
                       else Does(old(Now()), CloseInode(inode))
      ensures r == 0 && Leads(old(dirs), dst) ==>
        var t := old(dirs)[dst.parent].entries[dst.name];
        && t in old(files) && old(files)[t].nlinks > 0
        && files == Dropped(old(files), t, t in old(open) && (t == inode && !aborted ==> old(open)[t] > 1))
      ensures r == 0 && !Leads(old(dirs), dst) ==> files == old(files)
    {
      aborted := false;
      FindIs(files, dirs, open, src);
      FindIs(files, dirs, open, dst);
      assert DirOk(files, dirs, inode, -1) && OpenOk(files, open, inode) && DirOk(files, dirs, dst.parent, -1);
      assert CountOk(files, dirs, dst.parent, -1, 0) && Steady(files, dirs, inode);
      var isDir := files[inode].isDir;
      ghost var dirs0 := dirs;
      r := ClearTarget(dst, inode, isDir);
      assert DirOk(files, dirs, dst.parent, -1);
      if r < 0 {
        var closed := RefsClose(inode, -1);
        return;
      }
      aborted, r := MoveEntry(dst, src, inode, isDir, room, dirs0);
    }

    /** The second half of a rename: the target entry is not there any more. */
    method MoveEntry(dst: Path, src: Path, inode: int, isDir: bool, room: bool,
                     ghost dirs0: map<int, Dir>) returns (aborted: bool, r: int)
      requires Valid() && Plainly(dst.name) && Plainly(src.name) && |src.name| <= NAME_MAX && dst.parent >= 0
      requires inode in open && inode in files && (inode in dirs <==> isDir) && dst.parent >= 0
      requires HasEntry(dirs0, src.parent, src.name) && dirs0[src.parent].entries[src.name] == inode
      requires Plain(dirs) == Plain(dirs0) || Plain(dirs) == Plain(dirs0) - {(dst.parent, dst.name)}
      modifies this
      ensures Valid() && r <= 0 && (aborted ==> r == 0) && (!aborted ==> open == Closing(old(open), inode))
      ensures r < 0 ==> Plain(dirs) == Plain(old(dirs))
      ensures r == 0 ==> Plain(dirs) == Plain(dirs0)[(dst.parent, dst.name) := inode] - {(src.parent, src.name)}
      ensures r == 0 ==> (aborted <==> isDir && old(dirs)[inode].crippled)
      ensures r == 0 && isDir && inode in dirs && !aborted ==>
        DOTDOT in dirs[inode].entries && dirs[inode].entries[DOTDOT] == dst.parent
      ensures r == Enter(old(files), old(dirs), dst.parent, dst.name, room)
      ensures Now() == if r < 0 then Does(old(Now()), CloseInode(inode))
                       else MovedAndClosed(old(Now()), dst, src, inode)
      ensures inode in old(open) && inode in old(files)
      ensures files == if aborted || old(open)[inode] > 1 || old(files)[inode].nlinks > 0 then old(files)
                       else old(files) - {inode}
    {
      aborted := false;
      r := DirInsert(dst.parent, dst.name, inode, room, -1);
      if r < 0 {
        var closed := RefsClose(inode, -1);
        return;
      }
      StillThere(dirs0, dirs, src, dst, inode);
      TakeSource(src, inode);
      assert DirOk(files, dirs, inode, -1);
      if isDir {
        var reparented := DirReparent(inode, dst.parent);
        if reparented < 0 {
          return true, 0;
        }
      }
      var closed := RefsClose(inode, -1);
      assert closed == 0;
    }

    /** Takes the old entry away; the inode is owed the link of the new one. */
    method TakeSource(src: Path, inode: int)
      requires Ok(inode, 1, -1) && Plainly(src.name) && |src.name| <= NAME_MAX && inode in open
      requires HasEntry(dirs, src.parent, src.name) && dirs[src.parent].entries[src.name] == inode
      modifies this`dirs, this`log
      ensures Ok(-1, 0, -1) && dirs == WithoutEntry(old(dirs), src.parent, src.name)
      ensures old(AllSteady(files, dirs)) ==> AllSteady(files, dirs)
      ensures Plain(dirs) == Plain(old(dirs)) - {(src.parent, src.name)}
    {
      assert DirOk(files, dirs, src.parent, -1) && OpenOk(files, open, inode) && CountOk(files, dirs, inode, inode, 1);
      assert src.name in dirs[src.parent].entries.Keys;
      var removed := DirRemove(src.parent, src.name, inode, 1);
      assert removed == inode;
      forall i ensures CountOk(files, dirs, i, -1, 0) {
        assert CountOk(files, dirs, i, inode, 0);
      }
    }

    /** A directory with an entry has not been destroyed. */
    lemma NotCrippled(d: int)
      requires Ok(-1, 0, -1) && d in dirs && exists name :: name in dirs[d].entries && !Dotted(name)
      ensures !dirs[d].crippled
    {
      assert DirOk(files, dirs, d, -1);
      var name :| name in dirs[d].entries && !Dotted(name);
      assert name in dirs[d].entries.Keys;
    }
  }

  /** The files after a link of inode `i` has been dropped: without links and references it goes. */
  function Dropped(files: map<int, Info>, i: int, inUse: bool): map<int, Info>
    requires i in files && files[i].nlinks > 0
  {
    if files[i].nlinks == 1 && !inUse then files - {i} else files[i := files[i].(nlinks := files[i].nlinks - 1)]
  }

  /** The maps after inode `i` has lost an entry and a link. */
  function Without(m: Maps, d: int, name: Name, i: int): Maps
    requires i in m.files && m.files[i].nlinks > 0
  {
    var files, dirs := Dropped(m.files, i, i in m.open), WithoutEntry(m.dirs, d, name);
    m.(files := files, dirs := if i in files then dirs else dirs - {i})
  }

  /** The maps after the target of a rename, if there is one, has made way. */
  function Cleared(m: Maps, dst: Path): Maps {
    var i := Find(m.files, m.dirs, dst.parent, dst.name);
    if i < 0 || i !in m.files || m.files[i].nlinks == 0 then m
    else Without(m.(dirs := Crippling(m.dirs, i)), dst.parent, dst.name, i)
  }

  lemma {:induction false} ClearedIs(files: map<int, Info>, dirs: map<int, Dir>, open: map<int, nat>,
                                     files': map<int, Info>, dirs': map<int, Dir>, dst: Path, i: int)
    requires Find(files, dirs, dst.parent, dst.name) == i >= 0 && i in files && files[i].nlinks > 0
    requires files' == Dropped(files, i, i in open)
    requires var rest := WithoutEntry(Crippling(dirs, i), dst.parent, dst.name);
      dirs' == if i in files' then rest else rest - {i}
    ensures Maps(files', dirs', open) == Cleared(Maps(files, dirs, open), dst)
  {
  }

  /** The maps after the entry of inode `i` has been moved; a directory gets its new parent, and the inode
      is closed, unless it is a directory that has been destroyed. */
  function MovedAndClosed(m: Maps, dst: Path, src: Path, i: int): Maps {
    var dirs := WithoutEntry(WithEntry(m.dirs, dst.parent, dst.name, i), src.parent, src.name);
    if i in dirs && dirs[i].crippled then m.(dirs := dirs)
    else Does(m.(dirs := Reparenting(dirs, i, dst.parent)), CloseInode(i))
  }

  /** The maps after a rename that has come as far as its insertion. */
  function Renamed(m: Maps, dst: Path, src: Path, r: int): Maps {
    var i := Find(m.files, m.dirs, src.parent, src.name);
    var cleared := Cleared(m.(open := Opening(m.open, i)), dst);
    if r == 0 then MovedAndClosed(cleared, dst, src, i) else Does(cleared, CloseInode(i))
  }

  /** The source entry of a rename is there until it is taken away. */
  lemma {:induction false} StillThere(dirs0: map<int, Dir>, dirs: map<int, Dir>, src: Path, dst: Path, inode: int)
    requires HasEntry(dirs0, src.parent, src.name) && dirs0[src.parent].entries[src.name] == inode
    requires var t := (dst.parent, dst.name);
      Plain(dirs) == Plain(dirs0)[t := inode] || Plain(dirs) == (Plain(dirs0) - {t})[t := inode]
    ensures HasEntry(dirs, src.parent, src.name) && dirs[src.parent].entries[src.name] == inode
    ensures Plain(dirs) == Plain(dirs0)[(dst.parent, dst.name) := inode]
  {
    PlainAt(dirs0, (src.parent, src.name));
    PlainAt(dirs, (src.parent, src.name));
  }

  /** Taking a reference and giving it up again. */
  lemma {:induction false} Reopened(open: map<int, nat>, open': map<int, nat>, i: int)
    requires i in open ==> open[i] > 0
    requires open' == Closing(Opening(open, i), i)
    ensures open' == open
  {
  }

  lemma {:induction false} Inserted(files: map<int, Info>, dirs: map<int, Dir>, open: map<int, nat>, d: int, name: Name,
                                    target: int, newDir: int)
    requires WorldOk(files, dirs, open, -1, 0, newDir) && d in dirs && name !in dirs[d].entries && !Dotted(name)
    requires target in files && d != newDir && !dirs[d].crippled
    ensures WorldOk(files, WithEntry(dirs, d, name, target), open, target, 1, newDir)
    ensures Plain(WithEntry(dirs, d, name, target)) == Plain(dirs)[(d, name) := target]
  {
    var dirs' := WithEntry(dirs, d, name, target);
    EntriesGrow(dirs, d, name, target, dirs');
    PlainAdded(dirs, d, name, target, dirs');
    forall i ensures CountOk(files, dirs', i, target, 1) {
      assert CountOk(files, dirs, i, -1, 0) && CountOk(files, dirs, target, -1, 0);
    }
    forall e, n ensures TargetOk(files, dirs', e, n) {
      assert TargetOk(files, dirs, e, n);
    }
    forall e ensures DirOk(files, dirs', e, newDir) {
      assert DirOk(files, dirs, e, newDir);
    }
  }

  lemma {:induction false} Removed(files: map<int, Info>, dirs: map<int, Dir>, open: map<int, nat>, d: int, name: Name,
                                   target: int, debtor: int, owed: int)
    requires WorldOk(files, dirs, open, debtor, owed, -1) && HasEntry(dirs, d, name) && dirs[d].entries[name] == target
    requires target in files
    requires owed == 0 || debtor == target
    ensures WorldOk(files, WithoutEntry(dirs, d, name), open, target, owed - 1, -1)
    ensures Plain(WithoutEntry(dirs, d, name)) == Plain(dirs) - {(d, name)}
  {
    var dirs' := WithoutEntry(dirs, d, name);
    EntriesShrink(dirs, d, name, target, dirs');
    PlainRemoved(dirs, d, name, target, dirs');
    var left := owed - 1;
    forall i ensures CountOk(files, dirs', i, target, left) {
      assert CountOk(files, dirs, i, debtor, owed) && CountOk(files, dirs, target, debtor, owed);
    }
    forall e, n ensures TargetOk(files, dirs', e, n) {
      assert TargetOk(files, dirs, e, n);
    }
    forall e ensures DirOk(files, dirs', e, -1) {
      assert DirOk(files, dirs, e, -1);
      assert e == d ==> name in dirs[d].entries.Keys;
    }
  }

  lemma {:induction false} LinkCounted(files: map<int, Info>, files': map<int, Info>, dirs: map<int, Dir>,
                                       open: map<int, nat>, i: int, owed: int, newDir: int, newDir': int)
    requires WorldOk(files, dirs, open, i, owed, newDir) && i in files && 0 <= files[i].nlinks + owed < NLINKS
    requires files' == files[i := files[i].(nlinks := files[i].nlinks + owed)]
    requires newDir' == newDir || (i == newDir && owed > 0 && newDir' == -1)
    requires i in dirs && files'[i].nlinks == 0 ==> dirs[i].crippled
    requires owed > 0 || i in open
    ensures WorldOk(files', dirs, open, -1, 0, newDir')
  {
    forall j ensures CountOk(files', dirs, j, -1, 0) {
      assert CountOk(files, dirs, j, i, owed);
    }
    forall e, n ensures TargetOk(files', dirs, e, n) {
      assert TargetOk(files, dirs, e, n);
    }
    forall e ensures DirOk(files', dirs, e, newDir') {
      assert DirOk(files, dirs, e, newDir);
    }
    forall j ensures OpenOk(files', open, j) {
      assert OpenOk(files, open, j);
    }
    forall j ensures InUse(files', open, j, newDir') {
      assert InUse(files, open, j, newDir);
    }
  }

  /** A directory is destroyed, or gets another parent. */
  lemma {:induction false} DirChanged(files: map<int, Info>, dirs: map<int, Dir>, open: map<int, nat>, d: int, dir: Dir)
    requires WorldOk(files, dirs, open, -1, 0, -1) && d in dirs && !dirs[d].crippled
    requires dir.entries.Keys == dirs[d].entries.Keys && forall n :: n in dir.entries && !Dotted(n) ==>
      dir.entries[n] == dirs[d].entries[n]
    requires dir.crippled ==> dir.entries.Keys == {DOTDOT, DOT}
    ensures WorldOk(files, dirs[d := dir], open, -1, 0, -1) && Plain(dirs[d := dir]) == Plain(dirs)
  {
    var dirs' := dirs[d := dir];
    forall e, n ensures HasEntry(dirs, e, n) <==> HasEntry(dirs', e, n) {
      assert e == d ==> (n in dir.entries.Keys <==> n in dirs[d].entries.Keys);
    }
    EntriesKept(dirs, dirs');
    forall j ensures CountOk(files, dirs', j, -1, 0) {
      assert CountOk(files, dirs, j, -1, 0);
    }
    forall e, n ensures TargetOk(files, dirs', e, n) {
      assert TargetOk(files, dirs, e, n) && (HasEntry(dirs, e, n) <==> HasEntry(dirs', e, n));
    }
    forall e ensures DirOk(files, dirs', e, -1) {
      assert DirOk(files, dirs, e, -1);
      assert DOT in dirs[d].entries.Keys && DOTDOT in dirs[d].entries.Keys by {
        assert DirOk(files, dirs, d, -1);
      }
    }
  }

  lemma {:induction false} Unnamed(files: map<int, Info>, dirs: map<int, Dir>, number: int)
    requires forall d, n :: TargetOk(files, dirs, d, n)
    requires number !in files
    ensures Entries(dirs, number) == {}
  {
    forall d, n ensures (d, n) !in Entries(dirs, number) {
      assert TargetOk(files, dirs, d, n);
      assert (d, n) in Entries(dirs, number) ==> HasEntry(dirs, d, n);
    }
  }

  lemma {:induction false} FileAdded(files: map<int, Info>, dirs: map<int, Dir>, open: map<int, nat>, number: int)
    requires WorldOk(files, dirs, open, -1, 0, -1) && number !in files && number >= 0 && ROOT in files
    ensures WorldOk(files[number := Info(false, 0)], dirs, open, -1, 0, number)
  {
    var files' := files[number := Info(false, 0)];
    Unnamed(files, dirs, number);
    forall j ensures CountOk(files', dirs, j, -1, 0) {
      assert CountOk(files, dirs, j, -1, 0);
    }
    forall e, n ensures TargetOk(files', dirs, e, n) {
      assert TargetOk(files, dirs, e, n);
    }
    forall e ensures DirOk(files', dirs, e, number) {
      assert DirOk(files, dirs, e, -1) && CountOk(files, dirs, e, -1, 0);
    }
    forall j ensures OpenOk(files', open, j) && InUse(files', open, j, number) {
      assert OpenOk(files, open, j) && InUse(files, open, j, -1) && CountOk(files, dirs, j, -1, 0);
    }
  }

  lemma {:induction false} Created(files: map<int, Info>, dirs: map<int, Dir>, open: map<int, nat>, number: int,
                                   dir: Dir)
    requires WorldOk(files, dirs, open, -1, 0, -1) && number !in files && number >= 0
    requires dir.entries.Keys == {DOTDOT, DOT} && !dir.crippled
    ensures WorldOk(files[number := Info(true, 0)], dirs[number := dir], open,
                    if number == ROOT then ROOT else -1, if number == ROOT then 1 else 0, number)
  {
    var files', dirs' := files[number := Info(true, 0)], dirs[number := dir];
    assert DirOk(files, dirs, number, -1);
    forall e, n ensures HasEntry(dirs, e, n) <==> HasEntry(dirs', e, n) {
      assert e == number && n in dir.entries ==> n in dir.entries.Keys;
    }
    EntriesKept(dirs, dirs');
    Unnamed(files, dirs, number);
    var debtor, owed := if number == ROOT then ROOT else -1, if number == ROOT then 1 else 0;
    forall j ensures CountOk(files', dirs', j, debtor, owed) {
      assert CountOk(files, dirs, j, -1, 0);
    }
    forall e, n ensures TargetOk(files', dirs', e, n) {
      assert TargetOk(files, dirs, e, n);
      if HasEntry(dirs', e, n) {
        assert HasEntry(dirs, e, n);
        assert e != number;
      }
    }
    forall e ensures DirOk(files', dirs', e, number) {
      assert DirOk(files, dirs, e, -1) && CountOk(files, dirs, e, -1, 0);
      assert DOT in dir.entries.Keys && DOTDOT in dir.entries.Keys;
    }
    forall j ensures OpenOk(files', open, j) && InUse(files', open, j, number) {
      assert OpenOk(files, open, j) && InUse(files, open, j, -1) && CountOk(files, dirs, j, -1, 0);
    }
  }

  /** An inode without links leaves with its directory, which is empty. */
  lemma {:induction false} Freed(files: map<int, Info>, dirs: map<int, Dir>, open: map<int, nat>, i: int, newDir: int)
    requires WorldOk(files, dirs, open, -1, 0, newDir) && i in files && files[i].nlinks == 0
    ensures WorldOk(files - {i}, dirs - {i}, open - {i}, -1, 0, newDir) && Plain(dirs - {i}) == Plain(dirs)
  {
    var files', dirs' := files - {i}, dirs - {i};
    assert CountOk(files, dirs, i, -1, 0);
    assert DirOk(files, dirs, i, newDir);
    forall d, name ensures HasEntry(dirs, d, name) <==> HasEntry(dirs', d, name) {
      assert i in dirs ==> (name in dirs[i].entries <==> name in dirs[i].entries.Keys);
    }
    EntriesKept(dirs, dirs');
    forall j ensures CountOk(files', dirs', j, -1, 0) {
      assert CountOk(files, dirs, j, -1, 0);
    }
    forall d, name | HasEntry(dirs, d, name) ensures dirs[d].entries[name] != i {
      NamedBy(dirs, d, name);
    }
    forall d, name ensures TargetOk(files', dirs', d, name) {
      assert TargetOk(files, dirs, d, name);
      assert HasEntry(dirs', d, name) ==> HasEntry(dirs, d, name);
    }
    forall d ensures DirOk(files', dirs', d, newDir) {
      assert DirOk(files, dirs, d, newDir);
    }
    forall j ensures OpenOk(files', open - {i}, j) && InUse(files', open - {i}, j, newDir) {
      assert OpenOk(files, open, j) && InUse(files, open, j, newDir);
    }
  }

  // ----- over any sequence of operations -----

  datatype PathOp =
    | Create(number: int)
    | Open(inode: int)
    | Close(inode: int)
    | Link(path: Path, inode: int, allowed: bool, room: bool)
    | Unlink(path: Path, allowed: bool)
    | Mkdir(path: Path, number: int, created: bool, allowed: bool, chown: int, chmod: int, room: bool)
    | Rmdir(path: Path, allowed: bool)
    | Rename(dst: Path, src: Path, allowedDst: bool, allowedSrc: bool, room: bool)

  /** How a sequence of operations ends. */
  datatype Ending = Completed | AssertionFailed | CountWrapped

  /** What callers see to: a new inode number is free, an inode to be linked is open, and no name is
      "." or "..". */
  predicate MayPerform(files: map<int, Info>, open: map<int, nat>, op: PathOp) {
    match op
    case Create(number) => number !in files && number >= 0
    case Open(_) => true
    case Close(_) => true
    case Link(path, inode, _, _) => Plainly(path.name) && inode in open
    case Unlink(path, _) => Plainly(path.name)
    case Mkdir(path, number, _, _, _, _, _) => Plainly(path.name) && number !in files && number >= 0
    case Rmdir(path, _) => Plainly(path.name)
    case Rename(dst, src, _, _, _) => Plainly(dst.name) && Plainly(src.name)
  }

  method Perform(p: Paths, op: PathOp) returns (ending: Ending)
    requires p.Valid() && MayPerform(p.files, p.open, op)
    modifies p
    ensures (p.Valid() <==> ending != CountWrapped) && p.Logged()
    ensures ending == CountWrapped ==>
      op.Link? && op.inode in old(p.files) && old(p.files)[op.inode].nlinks == NLINKS - 1
    ensures ending == AssertionFailed ==> op.Rename?
  {
    ending := Completed;
    match op
    case Create(number) =>
      p.FileCreate(number);
    case Open(inode) =>
      var _ := p.RefsOpen(inode, -1);
    case Close(inode) =>
      var _ := p.RefsClose(inode, -1);
    case Link(path, inode, allowed, room) =>
      var wraps := inode in p.files && p.files[inode].nlinks == NLINKS - 1;
      var r := p.PathLink(path, inode, allowed, room);
      if r == 0 && wraps {
        ending := CountWrapped;
      }
    case Unlink(path, allowed) =>
      var _ := p.PathUnlink(path, allowed);
    case Mkdir(path, number, created, allowed, chown, chmod, room) =>
      var _ := p.PathMkdir(path, number, created, allowed, chown, chmod, room);
    case Rmdir(path, allowed) =>
      var _ := p.PathRmdir(path, allowed);
    case Rename(dst, src, allowedDst, allowedSrc, room) =>
      var aborted, _ := p.PathRename(dst, src, allowedDst, allowedSrc, room);
      if aborted {
        ending := AssertionFailed;
      }
  }

  /** Makes a root directory and performs the operations, those that callers may not make left out,
      up to a failed assertion or a link count that wraps around. Unless one has wrapped, every link
      count is the number of entries that name the inode, one more for the root, and no inode is there
      without a link or a reference. */
  method Run(ops: seq<PathOp>) returns (p: Paths, ending: Ending)
    ensures fresh(p) && (p.Valid() <==> ending != CountWrapped) && p.Logged()
    ensures ending != CountWrapped ==> forall i :: i in p.files ==>
      p.files[i].nlinks == |Entries(p.dirs, i)| + if i == ROOT then 1 else 0
    ensures ending != CountWrapped ==> forall d, name :: HasEntry(p.dirs, d, name) ==>
      p.dirs[d].entries[name] in p.files
    ensures ending != CountWrapped ==> forall i :: i in p.files ==> p.files[i].nlinks > 0 || i in p.open
  {
    p := new Paths();
    ending := Completed;
    var k := 0;
    while k < |ops| && ending == Completed
      invariant fresh(p) && (p.Valid() <==> ending != CountWrapped) && p.Logged()
    {
      if MayPerform(p.files, p.open, ops[k]) {
        ending := Perform(p, ops[k]);
      }
      k := k + 1;
    }
    if ending != CountWrapped {
      forall i | i in p.files ensures p.files[i].nlinks == |Entries(p.dirs, i)| + if i == ROOT then 1 else 0 {
        assert CountOk(p.files, p.dirs, i, -1, 0);
      }
      forall d, name | HasEntry(p.dirs, d, name) ensures p.dirs[d].entries[name] in p.files {
        assert TargetOk(p.files, p.dirs, d, name);
      }
      forall i | i in p.files ensures p.files[i].nlinks > 0 || i in p.open {
        assert InUse(p.files, p.open, i, -1) && CountOk(p.files, p.dirs, i, -1, 0);
      }
    }
  }

  // ----- runs that show what differs from the intent -----

  /** Unlinking a directory keeps a reference to it: a directory "a" is made, and unlinked. */
  method UnlinkKeepsReference() returns (p: Paths, r: int)
    ensures p.Valid() && r == EPERM
    ensures p.open == map[1 := 1] && p.files == map[ROOT := Info(true, 1), 1 := Info(true, 1)]
  {
    p := new Paths();
    var a := Path(true, ROOT, "a");
    var made := p.PathMkdir(a, 1, true, true, 0, 0, true);
    assert made == 0;
    r := p.PathUnlink(a, true);
  }

  /** Renaming an empty directory to its own name stops at an assertion, and the directory has lost its entry:
      a directory "a" is made, and renamed to "a". */
  method RenameAborts() returns (p: Paths, aborted: bool)
    ensures p.Valid() && aborted && !HasEntry(p.dirs, ROOT, "a")
  {
    p := new Paths();
    var a := Path(true, ROOT, "a");
    var made := p.PathMkdir(a, 1, true, true, 0, 0, true);
    assert made == 0;
    var r;
    aborted, r := p.PathRename(a, a, true, true, true);
    assert r == 0;
    PlainAt(p.dirs, (ROOT, "a"));
  }

  /** Two files, held open. */
  method TwoFiles() returns (p: Paths)
    ensures fresh(p) && p.Valid() && p.open == map[1 := 1, 2 := 1]
    ensures p.files == map[ROOT := Info(true, 1), 1 := Info(false, 0), 2 := Info(false, 0)]
    ensures p.dirs == map[ROOT := EmptyDir(ROOT, ROOT)]
  {
    p := new Paths();
    p.FileCreate(1);
    p.FileCreate(2);
  }

  /** Entered as "a" and "b". */
  method TwoEntries() returns (p: Paths)
    ensures fresh(p) && p.Valid()
    ensures p.files == map[ROOT := Info(true, 1), 1 := Info(false, 1), 2 := Info(false, 1)]
    ensures p.dirs == map[ROOT := Dir(map[DOTDOT := ROOT, DOT := ROOT, "a" := 1, "b" := 2], false)]
  {
    p := TwoFiles();
    var linked := p.PathLink(Path(true, ROOT, "a"), 1, true, true);
    assert linked == 0;
    linked := p.PathLink(Path(true, ROOT, "b"), 2, true, true);
    assert linked == 0;
  }

  /** A rename without room for the new entry loses its target: of the two files, "a" is renamed to "b". */
  method RenameLosesTarget() returns (p: Paths, r: int)
    ensures p.Valid() && r == ENOSPC
    ensures HasEntry(p.dirs, ROOT, "a") && !HasEntry(p.dirs, ROOT, "b")
  {
    p := TwoEntries();
    PlainAt(p.dirs, (ROOT, "a"));
    var aborted;
    aborted, r := p.PathRename(Path(true, ROOT, "b"), Path(true, ROOT, "a"), true, true, false);
    PlainAt(p.dirs, (ROOT, "a"));
    PlainAt(p.dirs, (ROOT, "b"));
  }
}
