// dir.c: a directory file as a sequence of blocks, and the map from names to inodes it stands for.

module Directories {
  import opened Geometry
  import opened Blocks
  import opened DirBlocks

  const ENOENT: int := -2
  const EEXIST: int := -17
  const ENOTDIR: int := -20
  const EINVAL: int := -22
  const ENOSPC: int := -28
  const ENAMETOOLONG: int := -36
  const ENOTEMPTY: int := -39

  // ----- what the blocks hold -----

  /** The entries, block by block. */
  type Contents = seq<seq<Entry>>

  ghost predicate At(c: Contents, p: int, i: int) {
    0 <= p < |c| && 0 <= i < |c[p]|
  }

  ghost predicate Unique(c: Contents) {
    forall u :: Look(u) ==>
      forall p, i, q, j :: At(c, p, i) && At(c, q, j) && c[p][i].name == c[q][j].name ==> p == q && i == j
  }

  ghost predicate Bound(c: Contents, name: Name) {
    exists p, i :: At(c, p, i) && c[p][i].name == name
  }

  ghost function NamesOf(c: Contents): set<Name> {
    set p, i | 0 <= p < |c| && 0 <= i < |c[p]| :: c[p][i].name
  }

  ghost function InodeOf(c: Contents, name: Name): int
    requires Bound(c, name)
  {
    var p, i :| At(c, p, i) && c[p][i].name == name;
    c[p][i].inode
  }

  lemma {:induction false} NamesAreBound(c: Contents, name: Name)
    ensures name in NamesOf(c) <==> Bound(c, name)
  {
    if Bound(c, name) {
      var p, i :| At(c, p, i) && c[p][i].name == name;
      assert 0 <= p < |c| && 0 <= i < |c[p]| && c[p][i].name == name;
    }
    if name in NamesOf(c) {
      var p, i :| 0 <= p < |c| && 0 <= i < |c[p]| && c[p][i].name == name;
      assert At(c, p, i);
    }
  }

  /** The map a directory stands for. */
  ghost function MapOf(c: Contents): map<Name, int> {
    map name | name in NamesOf(c) && Bound(c, name) :: InodeOf(c, name)
  }

  lemma {:induction false} MapAt(c: Contents, p: int, i: int)
    requires Unique(c) && At(c, p, i)
    ensures c[p][i].name in MapOf(c) && MapOf(c)[c[p][i].name] == c[p][i].inode
  {
    assert Look(0);
    NamesAreBound(c, c[p][i].name);
  }

  lemma {:induction false} MapHas(c: Contents, name: Name)
    ensures name in MapOf(c) <==> Bound(c, name)
  {
    NamesAreBound(c, name);
  }

  /** The map is determined by the entries. */
  lemma {:induction false} MapIs(c: Contents, m: map<Name, int>)
    requires Unique(c)
    requires forall p, i :: At(c, p, i) ==> c[p][i].name in m && m[c[p][i].name] == c[p][i].inode
    requires forall name :: name in m ==> Bound(c, name)
    ensures MapOf(c) == m
  {
    assert Look(0);
    forall name ensures name in MapOf(c) <==> name in m {
      MapHas(c, name);
    }
    forall name | name in m ensures MapOf(c)[name] == m[name] {
      var p, i :| At(c, p, i) && c[p][i].name == name;
      MapAt(c, p, i);
    }
  }

  // ----- changes -----

  /** An entry with a new name has been added to block `p`, which may be a new one. */
  lemma {:induction false} EntryAdded(c: Contents, p: nat, e: Entry, c': Contents)
    requires Unique(c) && !Bound(c, e.name)
    requires if p < |c| then c' == c[p := c[p] + [e]] else p == |c| && c' == c + [[e]]
    ensures Unique(c') && MapOf(c') == MapOf(c)[e.name := e.inode]
  {
    assert Look(0);
    var last := |c'[p]| - 1;
    assert c'[p][last] == e && At(c', p, last);
    forall q, j | At(c', q, j) && !(q == p && j == last) ensures At(c, q, j) && c'[q][j] == c[q][j] {
    }
    forall q, j | At(c, q, j) ensures At(c', q, j) && c'[q][j] == c[q][j] {
    }
    forall q, j, r, k | At(c', q, j) && At(c', r, k) && c'[q][j].name == c'[r][k].name ensures q == r && j == k {
      assert At(c, q, j) || At(c, r, k) || (q == r == p && j == k == last);
    }
    var m := MapOf(c)[e.name := e.inode];
    forall q, j | At(c', q, j) ensures c'[q][j].name in m && m[c'[q][j].name] == c'[q][j].inode {
      if !(q == p && j == last) {
        MapAt(c, q, j);
      }
    }
    forall name | name in m ensures Bound(c', name) {
      if name != e.name {
        MapHas(c, name);
        var q, j :| At(c, q, j) && c[q][j].name == name;
        assert At(c', q, j) && c'[q][j].name == name;
      }
    }
    MapIs(c', m);
  }

  /** Entry `i` of block `p` has been taken out; the others may have moved within that block. */
  lemma {:induction false} EntryTaken(c: Contents, p: nat, i: nat, c': Contents)
    requires Unique(c) && At(c, p, i)
    requires c' == c[p := c[p][..i] + c[p][i + 1..]]
    ensures Unique(c') && MapOf(c') == MapOf(c) - {c[p][i].name}
  {
    assert Look(0);
    forall q, j | At(c', q, j) ensures At(c, q, Was(p, i, q, j)) && c'[q][j] == c[q][Was(p, i, q, j)] {
    }
    assert Unique(c');
    var m := MapOf(c) - {c[p][i].name};
    forall q, j | At(c', q, j) ensures c'[q][j].name in m && m[c'[q][j].name] == c'[q][j].inode {
      MapAt(c, q, Was(p, i, q, j));
    }
    forall name | name in m ensures Bound(c', name) {
      MapHas(c, name);
      var q, j :| At(c, q, j) && c[q][j].name == name;
      var k := if q == p && j > i then j - 1 else j;
      assert At(c', q, k) && c'[q][k] == c[q][j];
    }
    MapIs(c', m);
  }

  ghost function Was(p: int, i: int, q: int, j: int): int {
    if q == p && j >= i then j + 1 else j
  }

  /** The last entry of the last block has gone, and the empty blocks before it with it. */
  lemma {:induction false} EntryCut(c: Contents, p: nat, n: nat)
    requires Unique(c) && n <= p == |c| - 1 && |c[p]| == 1
    requires forall q :: n <= q < p ==> c[q] == []
    ensures Unique(c[..n]) && MapOf(c[..n]) == MapOf(c) - {c[p][0].name}
  {
    assert Look(0);
    var c' := c[..n];
    assert At(c, p, 0);
    forall q, j | At(c', q, j) ensures At(c, q, j) && c'[q][j] == c[q][j] {
    }
    var m := MapOf(c) - {c[p][0].name};
    forall q, j | At(c', q, j) ensures c'[q][j].name in m && m[c'[q][j].name] == c'[q][j].inode {
      MapAt(c, q, j);
    }
    forall name | name in m ensures Bound(c', name) {
      MapHas(c, name);
      var q, j :| At(c, q, j) && c[q][j].name == name;
      assert q < n;
      assert At(c', q, j) && c'[q][j].name == name;
    }
    MapIs(c', m);
  }

  // ----- searching -----

  /** The name is in none of the first `pos` blocks. */
  ghost predicate NotBefore(c: Contents, name: Name, pos: int) {
    forall u :: Look(u) ==> forall p, i :: At(c, p, i) && p < pos ==> c[p][i].name != name
  }

  lemma {:induction false} NotBeforeStep(c: Contents, name: Name, pos: nat)
    requires pos < |c| && NotBefore(c, name, pos) && forall j :: 0 <= j < |c[pos]| ==> c[pos][j].name != name
    ensures NotBefore(c, name, pos + 1)
  {
    assert Look(0);
  }

  lemma {:induction false} NotBeforeEnd(c: Contents, name: Name)
    requires NotBefore(c, name, |c|)
    ensures !Bound(c, name) && name !in MapOf(c)
  {
    assert Look(0);
    MapHas(c, name);
  }

  /** The fullest of the first `pos` blocks that has room for the name, if there is one. */
  ghost predicate Best(c: Contents, name: Name, pos: int, best: int, nameoff: int, count: int) {
    && (if best == -1 then nameoff == 0
        else
          && 0 <= best < pos && best < |c| && Fits(c[best], name)
          && count == |c[best]| && nameoff == |Strings(c[best])|)
    && forall u :: Look(u) ==> forall p :: 0 <= p < pos && p < |c| && Fits(c[p], name) ==> |Strings(c[p])| <= nameoff
  }

  lemma {:induction false} BestStep(c: Contents, name: Name, pos: nat, best: int, nameoff: int, count: int)
    requires pos < |c| && Best(c, name, pos, best, nameoff, count)
    ensures if |c[pos]| < ENTRIES && NAMESPACE - |Strings(c[pos])| > |name| && |Strings(c[pos])| > nameoff
            then Best(c, name, pos + 1, pos, |Strings(c[pos])|, |c[pos]|)
            else Best(c, name, pos + 1, best, nameoff, count)
  {
    assert Look(0);
  }

  lemma {:induction false} BestEnd(c: Contents, name: Name, best: int, nameoff: int, count: int)
    requires Best(c, name, |c|, best, nameoff, count)
    ensures best == -1 ==> forall p :: 0 <= p < |c| ==> !Fits(c[p], name)
    ensures best != -1 && nameoff >= 0 ==> Fullest(c, name, nameoff)
  {
    assert Look(0);
  }

  // ----- where entries go -----

  /** The entry has been added at the end of the fullest block that had room for it, or in a new
      block if none had. */
  ghost predicate AddedTo(c: Contents, c': Contents, e: Entry) {
    if exists p :: 0 <= p < |c| && Fits(c[p], e.name)
    then exists p ::
      0 <= p < |c| && Fits(c[p], e.name) && Fullest(c, e.name, |Strings(c[p])|) && c' == c[p := c[p] + [e]]
    else c' == c + [[e]]
  }

  ghost predicate Fullest(c: Contents, name: Name, size: nat) {
    forall p :: 0 <= p < |c| && Fits(c[p], name) ==> |Strings(c[p])| <= size
  }

  /** Entry `i` of block `p` has been taken out: the last block goes, with the `empties` empty ones
      before it, if it would be empty; otherwise the block is closed up. */
  ghost predicate TakenFrom(c: Contents, c': Contents, p: int, i: int, empties: int, name: Name) {
    && At(c, p, i) && c[p][i].name == name && EmptyRun(c, p, empties)
    && c' == if p == |c| - 1 && |c[p]| == 1 then c[..p - empties] else c[p := c[p][..i] + c[p][i + 1..]]
  }

  /** The `empties` blocks before block `pos` are empty, and the one before those is not. */
  ghost predicate EmptyRun(c: Contents, pos: int, empties: int) {
    && 0 <= empties <= pos <= |c|
    && (if pos == empties then pos == 0 else c[pos - empties - 1] != [])
    && forall u :: Look(u) ==> forall q :: pos - empties <= q < pos ==> c[q] == []
  }

  /** An empty block that is not the last is never filled again. */
  lemma {:induction false} EmptyStaysEmpty(c: Contents, c': Contents, e: Entry, p: nat)
    requires AddedTo(c, c', e) && p < |c| && c[p] == []
    ensures p < |c'| && c'[p] == []
  {
    assert |Strings(c[p])| == 0;
  }

  lemma {:induction false} EmptyRunStep(c: Contents, pos: nat, empties: int)
    requires EmptyRun(c, pos, empties) && pos < |c| && |c[0]| > 0
    ensures EmptyRun(c, pos + 1, if |c[pos]| > 0 then 0 else empties + 1)
  {
    assert Look(0);
  }

  lemma {:induction false} EmptyRunMeans(c: Contents, pos: int, empties: int)
    requires EmptyRun(c, pos, empties)
    ensures forall q :: pos - empties <= q < pos ==> c[q] == []
  {
    assert Look(0);
  }

  // ----- the order of enumeration -----

  /** The entries from entry `i` of block `p` on. */
  ghost function ListFrom(c: Contents, p: nat, i: nat): seq<Entry>
    decreases |c| - p, if p < |c| then |c[p]| - i else 0
  {
    if p >= |c| then []
    else if i >= |c[p]| then ListFrom(c, p + 1, 0)
    else [c[p][i]] + ListFrom(c, p, i + 1)
  }

  /** All entries, in the order of storage. */
  ghost function Listing(c: Contents): seq<Entry> {
    if |c| == 0 then [] else Listing(c[..|c| - 1]) + c[|c| - 1]
  }

  lemma {:induction false} ListFromSplit(c: Contents, p: nat, i: nat)
    requires p < |c| && i <= |c[p]|
    ensures ListFrom(c, p, i) == c[p][i..] + ListFrom(c, p + 1, 0)
    decreases |c[p]| - i
  {
    if i < |c[p]| {
      ListFromSplit(c, p, i + 1);
    }
  }

  lemma {:induction false} ListingFrom(c: Contents, p: nat)
    requires p <= |c|
    ensures Listing(c) == Listing(c[..p]) + ListFrom(c, p, 0)
    decreases |c| - p
  {
    if p == |c| {
      assert c[..p] == c;
    } else {
      var d, e := c[..p + 1], c[..p];
      ListingFrom(c, p + 1);
      ListFromSplit(c, p, 0);
      assert d[..p] == e && d[p] == c[p][0..];
      Joined(Listing(e), c[p], ListFrom(c, p + 1, 0));
    }
  }

  lemma {:induction false} Joined(a: seq<Entry>, b: seq<Entry>, c: seq<Entry>)
    ensures a + b + c == a + (b[0..] + c)
  {
  }

  /** The entries that an enumeration from `offset` has still to yield. */
  ghost function Remaining(c: Contents, offset: nat): seq<Entry> {
    assert IsRemaining(c, offset, ListFrom(c, offset / ENTRIES, offset % ENTRIES));
    var list :| IsRemaining(c, offset, list);
    list
  }

  ghost predicate IsRemaining(c: Contents, offset: nat, list: seq<Entry>) {
    forall u :: Look(u) ==> list == ListFrom(c, offset / ENTRIES, offset % ENTRIES)
  }

  lemma {:induction false} RemainingIs(c: Contents, offset: nat, p: nat, i: nat)
    requires p == offset / ENTRIES && i == offset % ENTRIES
    ensures Remaining(c, offset) == ListFrom(c, p, i) && i < ENTRIES && offset == i + p * ENTRIES
  {
    Divide(offset, ENTRIES);
    assert Look(0);
    assert IsRemaining(c, offset, Remaining(c, offset));
  }

  lemma {:induction false} RemainingFrom(c: Contents, offset: nat) returns (p: nat, i: nat)
    ensures Remaining(c, offset) == ListFrom(c, p, i)
  {
    Divide(offset, ENTRIES);
    p, i := offset / ENTRIES, offset % ENTRIES;
    RemainingIs(c, offset, p, i);
  }

  /** The offset just after entry `i` of block `p`. */
  lemma {:induction false} RemainingAfter(c: Contents, p: nat, i: nat, offset: nat)
    requires p < |c| && i < |c[p]| <= ENTRIES && offset == i + p * ENTRIES + 1
    ensures Remaining(c, offset) == ListFrom(c, p, i + 1)
  {
    if i + 1 < ENTRIES {
      DivideUnique(offset, ENTRIES, p, i + 1);
      RemainingIs(c, offset, p, i + 1);
    } else {
      Succ(p, ENTRIES);
      DivideUnique(offset, ENTRIES, p + 1, 0);
      RemainingIs(c, offset, p + 1, 0);
    }
  }

  /** Storage order is unambiguous: an enumeration from the start yields the listing. */
  lemma {:induction false} RemainingAll(c: Contents)
    ensures Remaining(c, 0) == Listing(c)
  {
    ListingFrom(c, 0);
    DivideUnique(0, ENTRIES, 0, 0);
    RemainingIs(c, 0, 0, 0);
  }

  // ----- results -----

  // What each operation returns, in terms of the map `m` the directory stands for.

  function LookupResult(isDir: bool, m: map<Name, int>, name: Name): int {
    if !isDir then ENOTDIR
    else if |name| > NAME_MAX then ENAMETOOLONG
    else if name in m then m[name] else ENOENT
  }

  function InsertResult(isDir: bool, crippled: bool, m: map<Name, int>, name: Name, room: bool): int {
    if !isDir then ENOTDIR
    else if crippled then ENOENT
    else if |name| > NAME_MAX then ENAMETOOLONG
    else if name in m then EEXIST
    else if room then 0 else ENOSPC
  }

  function RemoveResult(isDir: bool, crippled: bool, m: map<Name, int>, name: Name): int {
    if !isDir then ENOTDIR
    else if crippled then ENOENT
    else if |name| > NAME_MAX then ENAMETOOLONG
    else if name == DOT then EINVAL
    else if name == DOTDOT then ENOTEMPTY
    else if name in m then m[name] else ENOENT
  }

  function DestroyResult(isDir: bool, crippled: bool, m: map<Name, int>): int {
    if !isDir then ENOTDIR
    else if crippled then ENOENT
    else if m.Keys == {DOTDOT, DOT} then 0 else ENOTEMPTY
  }

  function ReparentResult(isDir: bool, crippled: bool): int {
    if !isDir then ENOTDIR else if crippled then ENOENT else 0
  }

  // ----- a directory and its operations -----

  ghost predicate AllPacked(blocks: seq<DirBlock>, c: Contents) {
    && |c| == |blocks|
    && (forall p :: 0 <= p < |c| ==>
      |blocks[p].numbers| == ENTRIES && |blocks[p].names| == NAMESPACE && |c[p]| <= ENTRIES)
    && forall u :: Look(u) ==> forall p :: 0 <= p < |c| ==> Packed(blocks[p], c[p])
  }

  lemma {:induction false} PackedAt(blocks: seq<DirBlock>, c: Contents, p: nat)
    requires AllPacked(blocks, c) && p < |c|
    ensures Packed(blocks[p], c[p])
  {
    assert Look(0);
  }

  lemma {:induction false} PackedSet(blocks: seq<DirBlock>, c: Contents, p: nat, b: DirBlock, ents: seq<Entry>)
    requires AllPacked(blocks, c) && p <= |c| && Packed(b, ents)
    ensures p < |c| ==> AllPacked(blocks[p := b], c[p := ents])
    ensures p == |c| ==> AllPacked(blocks + [b], c + [ents])
    ensures AllPacked(blocks[..p], c[..p])
  {
    assert Look(0);
  }

  /** What every directory keeps: names are unique, ".." and "." come first, and the last block is
      not empty; one that has been destroyed has those two entries and no others. */
  ghost predicate Sound(blocks: seq<DirBlock>, c: Contents, self: int, crippled: bool) {
    && |c| == |blocks| > 0
    && AllPacked(blocks, c)
    && Unique(c)
    && |c[0]| >= 2 && c[0][0].name == DOTDOT && c[0][1] == Entry(DOT, self)
    && c[|c| - 1] != []
    && (crippled ==> |c| == 1 && |c[0]| == 2)
  }

  /** There is room for the name in a block, which is not an empty one. */
  ghost predicate Fits(ents: seq<Entry>, name: Name) {
    0 < |Strings(ents)| && |ents| < ENTRIES && NAMESPACE - |Strings(ents)| > |name|
  }

  function WithBlock(blocks: seq<DirBlock>, p: nat, b: DirBlock): seq<DirBlock>
    requires p <= |blocks|
  {
    if p < |blocks| then blocks[p := b] else blocks + [b]
  }

  /** Only block `p` differs. */
  predicate Rewritten(before: seq<DirBlock>, after: seq<DirBlock>, p: int) {
    0 <= p < |before| == |after| && after == before[p := after[p]]
  }

  /** One call to write a block, or to cut the file, makes the change. */
  ghost predicate OneCall(before: seq<DirBlock>, after: seq<DirBlock>) {
    if |after| < |before| then 0 < |after| && after == before[..|after|] else exists p :: Rewritten(before, after, p)
  }

  ghost function WithAdded(c: Contents, p: nat, e: Entry): Contents {
    if p < |c| then c[p := c[p] + [e]] else c + [[e]]
  }

  /** No name but "." and ".." is bound. */
  ghost predicate OnlyDotted(m: map<Name, int>) {
    forall name :: DottedIn(m, name)
  }

  ghost predicate DottedIn(m: map<Name, int>, name: Name) {
    name in m ==> name == DOT || name == DOTDOT
  }

  class Directory {
    const isDir: bool
    const self: int
    var blocks: seq<DirBlock>
    var crippled: bool      // the file is one byte shorter than its one block
    ghost var contents: Contents

    ghost predicate Valid()
      reads this
    {
      isDir ==> Sound(blocks, contents, self, crippled)
    }

    ghost function Map(): map<Name, int>
      reads this
    {
      MapOf(contents)
    }

    /** A new directory. */
    constructor (parent: int, self: int)
      requires GoodNumber(parent) && GoodNumber(self)
      ensures Valid() && isDir && !crippled && this.self == self && |blocks| == 1
      ensures Map() == map[DOTDOT := parent, DOT := self]
    {
      var buffer := new Buffer();
      buffer.Clear();
      StringsOne(Entry(DOTDOT, parent));
      buffer.Put(0, 0, DOTDOT, parent, []);
      ghost var one := [] + [Entry(DOTDOT, parent)];
      assert one == [Entry(DOTDOT, parent)];
      buffer.Put(1, 3, DOT, self, one);
      this.isDir, this.self, crippled := true, self, false;
      blocks := [buffer.Block()];
      assert one + [Entry(DOT, self)] == [Entry(DOTDOT, parent), Entry(DOT, self)];
      contents := [[Entry(DOTDOT, parent), Entry(DOT, self)]];
      new;
      NewMap(contents, parent, self);
    }

    /** A directory as it has been read. */
    constructor Read(self: int, blocks: seq<DirBlock>, crippled: bool, ghost contents: Contents)
      requires Sound(blocks, contents, self, crippled)
      ensures Valid() && isDir && this.self == self && this.blocks == blocks && this.crippled == crippled
      ensures this.contents == contents
    {
      this.isDir, this.self, this.blocks, this.crippled, this.contents := true, self, blocks, crippled, contents;
    }

    /** Reads block `p`; `whole` says that all its bytes were there. The last byte of a crippled
        block is not read: `junk` is what happens to be there. */
    method ReadBlock(p: nat, junk: char) returns (any: bool, whole: bool, b: DirBlock)
      requires isDir && Valid()
      ensures any == (p < |blocks|) && whole == (any && !crippled)
      ensures any ==> Holds(b, contents[p]) && (whole ==> b == blocks[p])
    {
      any := p < |blocks|;
      whole := any && !crippled;
      b := DirBlock([], []);
      if any {
        b := blocks[p];
        PackedAt(blocks, contents, p);
        if crippled {
          JunkHolds(b, contents[0], junk);
          b := b.(names := b.names[NAMESPACE - 1 := junk]);
        }
      }
    }

    method Lookup(name: Name, junk: char) returns (r: int)
      requires Valid()
      ensures r == LookupResult(isDir, Map(), name)
      ensures !isDir ==> r == ENOTDIR
      ensures isDir && |name| > NAME_MAX ==> r == ENAMETOOLONG
      ensures isDir && |name| <= NAME_MAX ==> r == if name in Map() then Map()[name] else ENOENT
    {
      if !isDir {
        return ENOTDIR;
      }
      if |name| > NAME_MAX {
        return ENAMETOOLONG;
      }
      var buffer := new Buffer();
      var pos := 0;
      var any, whole, b := ReadBlock(pos, junk);
      while any
        invariant pos <= |blocks| && any == (pos < |blocks|) && (any ==> Holds(b, contents[pos]))
        invariant buffer.Sized() && fresh(buffer.numbers) && fresh(buffer.names)
        invariant NotBefore(contents, name, pos)
        decreases |blocks| - pos
      {
        buffer.Load(b);
        var found, i, nameoff := buffer.Scan(name, contents[pos]);
        if found {
          assert At(contents, pos, i);
          MapAt(contents, pos, i);
          NumberAt(b, contents[pos], i);
          return buffer.numbers[i];
        }
        NotBeforeStep(contents, name, pos);
        pos := pos + 1;
        any, whole, b := ReadBlock(pos, junk);
      }
      NotBeforeEnd(contents, name);
      return ENOENT;
    }

    /** Adds an entry. `room` says whether the file could be extended by a block. */
    method Insert(name: Name, target: int, room: bool) returns (r: int)
      requires Valid() && CString(name) && GoodNumber(target)
      modifies this
      ensures Valid()
      ensures crippled == old(crippled)
      ensures r == InsertResult(isDir, crippled, old(Map()), name,
                                room || exists p :: 0 <= p < |old(contents)| && Fits(old(contents)[p], name))
      ensures r == 0 ==> Map() == old(Map())[name := target] && AddedTo(old(contents), contents, Entry(name, target))
      ensures r != 0 ==> blocks == old(blocks) && contents == old(contents)
      ensures !isDir ==> r == ENOTDIR
      ensures isDir && crippled ==> r == ENOENT
      ensures isDir && !crippled && |name| > NAME_MAX ==> r == ENAMETOOLONG
      ensures isDir && !crippled && |name| <= NAME_MAX && name in old(Map()) ==> r == EEXIST
      ensures isDir && !crippled && |name| <= NAME_MAX && name !in old(Map()) ==>
        r == if room || exists p :: 0 <= p < |old(contents)| && Fits(old(contents)[p], name) then 0 else ENOSPC
    {
      var p, b;
      r, p, b := Plan(name, target);
      if r != 0 {
        return;
      }
      if p == |blocks| && !room {
        return ENOSPC;
      }
      Commit(p, b, Entry(name, target));
    }

    /** Checks the arguments, looks for a place for the entry, and builds the block that is to be written
        as block `p`; it is a new one if `p` is the number of blocks. */
    method Plan(name: Name, target: int) returns (r: int, p: nat, b: DirBlock)
      requires Valid() && CString(name) && GoodNumber(target)
      ensures r == InsertResult(isDir, crippled, Map(), name, true)
      ensures r == 0 ==> Planned(p, b, Entry(name, target))
      ensures !isDir ==> r == ENOTDIR
      ensures isDir && crippled ==> r == ENOENT
      ensures isDir && !crippled && |name| > NAME_MAX ==> r == ENAMETOOLONG
      ensures isDir && !crippled && |name| <= NAME_MAX ==> r == if name in Map() then EEXIST else 0
    {
      p, b := 0, DirBlock([], []);
      if !isDir {
        return ENOTDIR, p, b;
      }
      if crippled {
        return ENOENT, p, b;
      }
      if |name| > NAME_MAX {
        return ENAMETOOLONG, p, b;
      }
      var found, bestpos, bestnameoff, besti := FindRoom(name);
      MapHas(contents, name);
      if found {
        return EEXIST, p, b;
      }
      var buffer := new Buffer();
      if bestpos != -1 {
        PackedAt(blocks, contents, bestpos);
        buffer.Load(blocks[bestpos]);
        buffer.Put(besti, bestnameoff, name, target, contents[bestpos]);
        BlockExtended(blocks, contents, self, bestpos, Entry(name, target), buffer.Block());
        return 0, bestpos, buffer.Block();
      }
      buffer.Clear();
      buffer.Put(0, 0, name, target, []);
      assert [] + [Entry(name, target)] == [Entry(name, target)];
      BlockAppended(blocks, contents, self, Entry(name, target), buffer.Block());
      return 0, |blocks|, buffer.Block();
    }

    /** Writing `b` as block `p` enters the new name, in the fullest block with room for it or, if there is
        none, in a new one. */
    ghost predicate Planned(p: nat, b: DirBlock, e: Entry)
      reads this
    {
      var c := WithAdded(contents, p, e);
      && isDir && !crippled && p <= |blocks| == |contents| && !Bound(contents, e.name) && |e.name| <= NAME_MAX
      && (p < |blocks| <==> exists q :: 0 <= q < |contents| && Fits(contents[q], e.name))
      && Sound(WithBlock(blocks, p, b), c, self, false) && MapOf(c) == Map()[e.name := e.inode]
      && AddedTo(contents, c, e)
    }

    method Commit(p: nat, b: DirBlock, ghost e: Entry)
      requires Planned(p, b, e)
      modifies this
      ensures Valid() && !crippled && blocks == WithBlock(old(blocks), p, b)
      ensures Map() == old(Map())[e.name := e.inode] && AddedTo(old(contents), contents, e)
    {
      blocks, contents := WithBlock(blocks, p, b), WithAdded(contents, p, e);
    }

    /** Looks for the name, and for the fullest block that has room for it. */
    method FindRoom(name: Name) returns (found: bool, bestpos: int, bestnameoff: nat, besti: nat)
      requires isDir && Valid() && !crippled
      ensures found <==> Bound(contents, name)
      ensures bestpos == -1 && !found ==> forall p :: 0 <= p < |contents| ==> !Fits(contents[p], name)
      ensures bestpos != -1 && !found ==>
        && 0 <= bestpos < |contents| && Fits(contents[bestpos], name)
        && besti == |contents[bestpos]| && bestnameoff == |Strings(contents[bestpos])|
      ensures bestpos != -1 && !found ==> Fullest(contents, name, bestnameoff)
    {
      var buffer := new Buffer();
      var pos := 0;
      bestpos, bestnameoff, besti := -1, 0, 0;
      var any, whole, b := ReadBlock(pos, NUL);
      while whole
        invariant pos <= |blocks| && whole == (pos < |blocks|) && (whole ==> b == blocks[pos])
        invariant buffer.Sized() && fresh(buffer.numbers) && fresh(buffer.names)
        invariant NotBefore(contents, name, pos)
        invariant Best(contents, name, pos, bestpos, bestnameoff, besti)
        decreases |blocks| - pos
      {
        buffer.Load(b);
        var i, nameoff;
        found, i, nameoff := buffer.Scan(name, contents[pos]);
        if found {
          assert At(contents, pos, i);
          return;
        }
        BestStep(contents, name, pos, bestpos, bestnameoff, besti);
        NotBeforeStep(contents, name, pos);
        if i < ENTRIES && NAMESPACE - nameoff > |name| && nameoff > bestnameoff {
          bestpos, bestnameoff, besti := pos, nameoff, i;
        }
        pos := pos + 1;
        any, whole, b := ReadBlock(pos, NUL);
      }
      found := false;
      NotBeforeEnd(contents, name);
      BestEnd(contents, name, bestpos, bestnameoff, besti);
    }

    /** Removes an entry and returns its inode number. A last block that would be empty goes, and
        all empty blocks before it. */
    method Remove(name: Name) returns (r: int)
      requires Valid()
      modifies this
      ensures Valid()
      ensures crippled == old(crippled)
      ensures r == RemoveResult(isDir, crippled, old(Map()), name)
      ensures r < 0 ==> blocks == old(blocks) && contents == old(contents)
      ensures r >= 0 ==> Map() == old(Map()) - {name} && exists p, i, empties ::
        TakenFrom(old(contents), contents, p, i, empties, name)
      ensures r >= 0 ==> OneCall(old(blocks), blocks)
      ensures !isDir ==> r == ENOTDIR
      ensures isDir && crippled ==> r == ENOENT
      ensures isDir && !crippled && |name| > NAME_MAX ==> r == ENAMETOOLONG
      ensures isDir && !crippled && name == DOT ==> r == EINVAL
      ensures isDir && !crippled && name == DOTDOT ==> r == ENOTEMPTY
      ensures isDir && !crippled && |name| <= NAME_MAX && name != DOT && name != DOTDOT ==>
        r == if name in old(Map()) then old(Map())[name] else ENOENT
    {
      if !isDir {
        return ENOTDIR;
      }
      if crippled {
        return ENOENT;
      }
      if |name| > NAME_MAX {
        return ENAMETOOLONG;
      }
      if |name| == 1 && name[0] == '.' {
        return EINVAL;
      }
      if |name| == 2 && name[0] == '.' && name[1] == '.' {
        return ENOTEMPTY;
      }
      r := RemoveNamed(name);
    }

    /** Goes through the blocks, counting the empty ones just passed. */
    method RemoveNamed(name: Name) returns (r: int)
      requires isDir && Valid() && !crippled && name != DOT && name != DOTDOT
      modifies this
      ensures Valid() && !crippled
      ensures r == if name in old(Map()) then old(Map())[name] else ENOENT
      ensures r < 0 ==> blocks == old(blocks) && contents == old(contents)
      ensures r >= 0 ==> Map() == old(Map()) - {name} && exists p, i, empties ::
        TakenFrom(old(contents), contents, p, i, empties, name)
      ensures r >= 0 ==> OneCall(old(blocks), blocks)
    {
      var buffer := new Buffer();
      var pos, emptyCount := 0, 0;
      var any, whole, b := ReadBlock(pos, NUL);
      while whole
        invariant pos <= |blocks| && whole == (pos < |blocks|) && (whole ==> b == blocks[pos])
        invariant blocks == old(blocks) && contents == old(contents) && crippled == old(crippled)
        invariant buffer.Sized() && fresh(buffer.numbers) && fresh(buffer.names)
        invariant NotBefore(contents, name, pos)
        invariant EmptyRun(contents, pos, emptyCount)
        decreases |blocks| - pos
      {
        buffer.Load(b);
        var found, i, nameoff := buffer.Scan(name, contents[pos]);
        if found {
          r := RemoveAt(buffer, pos, i, nameoff, emptyCount, name);
          return;
        }
        NotBeforeStep(contents, name, pos);
        EmptyRunStep(contents, pos, emptyCount);
        if i > 0 {
          emptyCount := -1;
        }
        pos := pos + 1;
        emptyCount := emptyCount + 1;
        any, whole, b := ReadBlock(pos, NUL);
      }
      NotBeforeEnd(contents, name);
      return ENOENT;
    }

    /** Takes an entry out: the block is written back, or the file cut if nothing would be left. */
    method RemoveAt(buffer: Buffer, pos: nat, i: nat, nameoff: nat, emptyCount: nat, name: Name) returns (r: int)
      requires isDir && Valid() && !crippled && buffer.Sized() && pos < |blocks| && buffer.Block() == blocks[pos]
      requires i < |contents[pos]| && nameoff == |Strings(contents[pos][..i])| && contents[pos][i].name == name
      requires name != DOT && name != DOTDOT
      requires EmptyRun(contents, pos, emptyCount)
      modifies this, buffer.numbers, buffer.names
      ensures Valid() && crippled == old(crippled) && Map() == old(Map()) - {name}
      ensures name in old(Map()) && r == old(Map())[name] >= 0
      ensures TakenFrom(old(contents), contents, pos, i, emptyCount, name) && OneCall(old(blocks), blocks)
    {
      ghost var was, c := blocks, contents;
      r := buffer.numbers[i];
      EntryHere(was, c, self, pos, i);
      NumberAt(was[pos], c[pos], 1);
      if i == 0 && buffer.numbers[1] == EOF && pos + 1 == |blocks| {
        var keep := pos - emptyCount;
        CutsOff(was, c, self, pos, keep, emptyCount, name);
        blocks, contents := blocks[..keep], c[..keep];
      } else {
        buffer.Take(i, nameoff, |name|, contents[pos]);
        var b := buffer.Block();
        ghost var rest := c[pos][..i] + c[pos][i + 1..];
        ClosesUp(was, c, self, pos, i, emptyCount, name, b, rest, c[pos := rest]);
        blocks, contents := blocks[pos := b], c[pos := rest];
      }
    }

    /** Marks the directory destroyed, which is possible exactly if nothing but ".." and "." is in it. */
    method Destroy() returns (r: int)
      requires Valid()
      modifies this
      ensures Valid()
      ensures r == DestroyResult(isDir, old(crippled), Map())
      ensures Map() == old(Map()) && contents == old(contents) && crippled == (old(crippled) || r == 0)
      ensures blocks == old(blocks) && (r == 0 ==> |blocks| == 1)
      ensures !isDir ==> r == ENOTDIR
      ensures isDir && old(crippled) ==> r == ENOENT
      ensures isDir && !old(crippled) ==> r == if OnlyDotted(Map()) then 0 else ENOTEMPTY
    {
      if !isDir {
        return ENOTDIR;
      }
      if crippled {
        return ENOENT;
      }
      OnlyDots(blocks, contents, self);
      DotsOnly(blocks, contents, self);
      if |blocks| > 1 {
        return ENOTEMPTY;
      }
      var any, whole, b := ReadBlock(0, NUL);
      if b.numbers[2] != EOF {
        return ENOTEMPTY;
      }
      crippled := true;
      return 0;
    }

    /** Changes the parent entry. */
    method Reparent(newParent: int) returns (r: int)
      requires Valid() && GoodNumber(newParent)
      modifies this
      ensures Valid() && crippled == old(crippled)
      ensures r == ReparentResult(isDir, crippled)
      ensures Map() == if r == 0 then old(Map())[DOTDOT := newParent] else old(Map())
      ensures if r == 0 then Rewritten(old(blocks), blocks, 0) else blocks == old(blocks)
      ensures r == if !isDir then ENOTDIR else if crippled then ENOENT else 0
    {
      if !isDir {
        return ENOTDIR;
      }
      if crippled {
        return ENOENT;
      }
      var any, whole, b := ReadBlock(0, NUL);
      EntryHere(blocks, contents, self, 0, 1);
      assert b.numbers[1] == self;
      ghost var c := contents;
      ParentChanged(blocks, c, self, newParent);
      blocks := blocks[0 := b.(numbers := b.numbers[0 := newParent])];
      contents := c[0 := c[0][0 := Entry(DOTDOT, newParent)]];
      return 0;
    }

    /** Yields the next entry at or after `offset`, and the offset to go on from; 0 at the end.
        The name is cut to `namesize` - 1 bytes. */
    method Enumerate(offset: nat, namesize: nat, junk: char) returns (r: int, ino: int, name: Name)
      requires Valid() && namesize > 0
      ensures !isDir ==> r == ENOTDIR
      ensures isDir ==> r >= 0 && (r == 0 <==> Remaining(contents, offset) == [])
      ensures r > 0 ==>
        && offset < r && |Remaining(contents, offset)| > 0
        && Remaining(contents, r) == Remaining(contents, offset)[1..]
        && var e := Remaining(contents, offset)[0];
           ino == e.inode && name == if |e.name| < namesize then e.name else e.name[..namesize - 1]
    {
      ino, name := EOF, "";
      if !isDir {
        return ENOTDIR, ino, name;
      }
      var pos, idx, any, b := NextEntry(offset, junk);
      if !any {
        return 0, ino, name;
      }
      var buffer := new Buffer();
      buffer.Load(b);
      NumberAt(b, contents[pos], idx);
      name := buffer.NameAt(idx, namesize, contents[pos]);
      ino := buffer.numbers[idx];
      r := idx + pos * ENTRIES + 1;
      RemainingAfter(contents, pos, idx, r);
      assert ListFrom(contents, pos, idx) == [contents[pos][idx]] + ListFrom(contents, pos, idx + 1);
    }

    /** Goes on to a block that has an entry not yet covered. */
    method NextEntry(offset: nat, junk: char) returns (pos: nat, idx: nat, any: bool, b: DirBlock)
      requires Valid() && isDir
      ensures ListFrom(contents, pos, idx) == Remaining(contents, offset) && offset <= idx + pos * ENTRIES
      ensures any <==> pos < |contents|
      ensures any ==> Holds(b, contents[pos]) && idx < |contents[pos]|
    {
      Divide(offset, ENTRIES);
      pos, idx := offset / ENTRIES, offset % ENTRIES;
      RemainingIs(contents, offset, pos, idx);
      var whole;
      any, whole, b := ReadBlock(pos, junk);
      while any
        invariant any == (pos < |blocks|) && (any ==> Holds(b, contents[pos]))
        invariant idx < ENTRIES && offset <= idx + pos * ENTRIES
        invariant ListFrom(contents, pos, idx) == Remaining(contents, offset)
        decreases if pos < |blocks| then |blocks| - pos else 0
      {
        NumberAt(b, contents[pos], idx);
        if b.numbers[idx] != EOF {
          break;
        }
        Succ(pos, ENTRIES);
        pos, idx := pos + 1, 0;
        any, whole, b := ReadBlock(pos, junk);
      }
    }
  }

  // ----- what the operations rely on -----

  /** An entry found in a sound directory. */
  lemma {:induction false} EntryHere(blocks: seq<DirBlock>, c: Contents, self: int, p: nat, i: nat)
    requires Sound(blocks, c, self, false) && p < |c| && i < |c[p]|
    ensures c[p][i].name in MapOf(c) && MapOf(c)[c[p][i].name] == c[p][i].inode == blocks[p].numbers[i] >= 0
  {
    assert At(c, p, i);
    PackedAt(blocks, c, p);
    NumberAt(blocks[p], c[p], i);
    MapAt(c, p, i);
  }

  lemma {:induction false} BlockAppended(blocks: seq<DirBlock>, c: Contents, self: int, e: Entry, b: DirBlock)
    requires Sound(blocks, c, self, false) && !Bound(c, e.name) && Packed(b, [e])
    ensures Sound(blocks + [b], c + [[e]], self, false) && MapOf(c + [[e]]) == MapOf(c)[e.name := e.inode]
  {
    EntryAdded(c, |c|, e, c + [[e]]);
    PackedSet(blocks, c, |c|, b, [e]);
  }

  lemma {:induction false} BlockExtended(blocks: seq<DirBlock>, c: Contents, self: int, p: nat, e: Entry, b: DirBlock)
    requires Sound(blocks, c, self, false) && !Bound(c, e.name) && p < |c| && Packed(b, c[p] + [e])
    ensures Sound(blocks[p := b], c[p := c[p] + [e]], self, false)
    ensures MapOf(c[p := c[p] + [e]]) == MapOf(c)[e.name := e.inode]
  {
    EntryAdded(c, p, e, c[p := c[p] + [e]]);
    PackedSet(blocks, c, p, b, c[p] + [e]);
  }

  lemma {:induction false} BlockReduced(blocks: seq<DirBlock>, c: Contents, self: int, p: nat, i: nat, b: DirBlock)
    requires Sound(blocks, c, self, false) && p < |c| && i < |c[p]| && c[p][i].name != DOT && c[p][i].name != DOTDOT
    requires p == |c| - 1 ==> |c[p]| > 1
    requires Packed(b, c[p][..i] + c[p][i + 1..])
    ensures var c' := c[p := c[p][..i] + c[p][i + 1..]];
      Sound(blocks[p := b], c', self, false) && MapOf(c') == MapOf(c) - {c[p][i].name}
  {
    assert At(c, p, i);
    EntryTaken(c, p, i, c[p := c[p][..i] + c[p][i + 1..]]);
    PackedSet(blocks, c, p, b, c[p][..i] + c[p][i + 1..]);
  }

  lemma {:induction false} FileCut(blocks: seq<DirBlock>, c: Contents, self: int, p: nat, n: nat)
    requires Sound(blocks, c, self, false) && n <= p == |c| - 1 && |c[p]| == 1
    requires c[p][0].name != DOT && c[p][0].name != DOTDOT
    requires forall q :: n <= q < p ==> c[q] == []
    requires if n == 0 then p == 0 else c[n - 1] != []
    ensures Sound(blocks[..n], c[..n], self, false) && MapOf(c[..n]) == MapOf(c) - {c[p][0].name}
  {
    EntryCut(c, p, n);
    PackedAt(blocks, c, n);
    PackedSet(blocks, c, n, blocks[n], c[n]);
  }

  /** The last entry of the last block is taken out: the block goes, and the empty ones before it. */
  lemma {:induction false} CutsOff(blocks: seq<DirBlock>, c: Contents, self: int, p: nat, n: nat, empties: int,
                                   name: Name)
    requires Sound(blocks, c, self, false) && EmptyRun(c, p, empties) && n == p - empties && p == |c| - 1
    requires |c[p]| == 1 && c[p][0].name == name && name != DOT && name != DOTDOT
    ensures Sound(blocks[..n], c[..n], self, false) && MapOf(c[..n]) == MapOf(c) - {name}
    ensures TakenFrom(c, c[..n], p, 0, empties, name) && OneCall(blocks, blocks[..n])
  {
    EmptyRunMeans(c, p, empties);
    FileCut(blocks, c, self, p, n);
  }

  /** Any other entry is taken out: its block is closed up. */
  lemma {:induction false} ClosesUp(blocks: seq<DirBlock>, c: Contents, self: int, p: nat, i: nat, empties: int,
                                    name: Name, b: DirBlock, rest: seq<Entry>, c': Contents)
    requires Sound(blocks, c, self, false) && EmptyRun(c, p, empties) && p < |c| && i < |c[p]|
    requires c[p][i].name == name && name != DOT && name != DOTDOT && !(p == |c| - 1 && |c[p]| == 1)
    requires rest == c[p][..i] + c[p][i + 1..] && c' == c[p := rest] && Packed(b, rest)
    ensures Sound(blocks[p := b], c', self, false) && MapOf(c') == MapOf(c) - {name}
    ensures TakenFrom(c, c', p, i, empties, name) && OneCall(blocks, blocks[p := b])
  {
    BlockReduced(blocks, c, self, p, i, b);
    assert Rewritten(blocks, blocks[p := b], p);
  }

  lemma {:induction false} ParentChanged(blocks: seq<DirBlock>, c: Contents, self: int, parent: int)
    requires Sound(blocks, c, self, false) && GoodNumber(parent)
    ensures var blocks' := blocks[0 := blocks[0].(numbers := blocks[0].numbers[0 := parent])];
      var c' := c[0 := c[0][0 := Entry(DOTDOT, parent)]];
      && Sound(blocks', c', self, false) && MapOf(c') == MapOf(c)[DOTDOT := parent] && Rewritten(blocks, blocks', 0)
  {
    var b := blocks[0].(numbers := blocks[0].numbers[0 := parent]);
    PackedAt(blocks, c, 0);
    Renumbered(blocks[0], c[0], parent);
    assert At(c, 0, 0);
    EntryChanged(c, parent);
    PackedSet(blocks, c, 0, b, c[0][0 := Entry(DOTDOT, parent)]);
  }

  lemma {:induction false} NewMap(c: Contents, parent: int, self: int)
    requires c == [[Entry(DOTDOT, parent), Entry(DOT, self)]]
    ensures Unique(c) && MapOf(c) == map[DOTDOT := parent, DOT := self]
  {
    assert Look(0);
    assert At(c, 0, 0) && At(c, 0, 1);
    assert c[0][0].name == DOTDOT && c[0][1].name == DOT;
    MapIs(c, map[DOTDOT := parent, DOT := self]);
  }

  lemma {:induction false} TwoStrings(ents: seq<Entry>)
    requires |ents| == 2 && ents[0].name == DOTDOT && ents[1].name == DOT
    ensures |Strings(ents)| == 5
  {
    assert ents == [ents[0]] + [ents[1]];
    StringsConcat([ents[0]], [ents[1]]);
    StringsOne(ents[0]);
    StringsOne(ents[1]);
  }

  /** The last byte of a block with two entries is not looked at. */
  lemma {:induction false} JunkHolds(b: DirBlock, ents: seq<Entry>, junk: char)
    requires Holds(b, ents) && |ents| == 2 && ents[0].name == DOTDOT && ents[1].name == DOT
    ensures Holds(b.(names := b.names[NAMESPACE - 1 := junk]), ents)
  {
    assert Look(0);
    TwoStrings(ents);
    assert b.names[NAMESPACE - 1 := junk][..5] == b.names[..5];
  }

  /** Compaction makes the test for emptiness exact. */
  lemma {:induction false} OnlyDots(blocks: seq<DirBlock>, c: Contents, self: int)
    requires Sound(blocks, c, self, false)
    ensures MapOf(c).Keys == {DOTDOT, DOT} <==> |blocks| == 1 && blocks[0].numbers[2] == EOF
    ensures |blocks| == 1 && blocks[0].numbers[2] == EOF ==> |c[0]| == 2
  {
    var last := |c| - 1;
    EntryHere(blocks, c, self, 0, 0);
    EntryHere(blocks, c, self, 0, 1);
    NumberAt(blocks[0], c[0], 2);
    if last > 0 {
      EntryHere(blocks, c, self, last, 0);
      OtherEntry(c, last, 0);
    } else if |c[0]| > 2 {
      EntryHere(blocks, c, self, 0, 2);
      OtherEntry(c, 0, 2);
    } else {
      forall name | name in MapOf(c) ensures name in {DOTDOT, DOT} {
        MapHas(c, name);
      }
    }
  }

  /** With "." and ".." bound, the test on the names is for there being no other. */
  lemma {:induction false} DotsAlone(m: map<Name, int>)
    requires DOT in m && DOTDOT in m
    ensures m.Keys == {DOTDOT, DOT} <==> OnlyDotted(m)
  {
    if OnlyDotted(m) {
      forall name | name in m.Keys ensures name in {DOTDOT, DOT} {
        assert DottedIn(m, name);
      }
    } else {
      var name :| !DottedIn(m, name);
      assert name in m.Keys;
    }
  }

  lemma {:induction false} DotsOnly(blocks: seq<DirBlock>, c: Contents, self: int)
    requires Sound(blocks, c, self, false)
    ensures MapOf(c).Keys == {DOTDOT, DOT} <==> OnlyDotted(MapOf(c))
  {
    EntryHere(blocks, c, self, 0, 0);
    EntryHere(blocks, c, self, 0, 1);
    DotsAlone(MapOf(c));
  }

  /** Any entry but the first two has another name. */
  lemma {:induction false} OtherEntry(c: Contents, p: nat, i: nat)
    requires Unique(c) && At(c, 0, 0) && At(c, 0, 1) && At(c, p, i) && (p > 0 || i > 1)
    requires c[0][0].name == DOTDOT && c[0][1].name == DOT
    ensures c[p][i].name != DOTDOT && c[p][i].name != DOT
  {
    assert Look(0);
  }

  lemma {:induction false} Renumbered(b: DirBlock, ents: seq<Entry>, inode: int)
    requires Packed(b, ents) && |ents| > 0 && GoodNumber(inode)
    ensures Packed(b.(numbers := b.numbers[0 := inode]), ents[0 := ents[0].(inode := inode)])
  {
    assert Look(0);
    var ents' := ents[0 := ents[0].(inode := inode)];
    StringsAt(ents, 0);
    StringsAt(ents', 0);
    assert GoodEntry(ents[0]);
  }

  lemma {:induction false} EntryChanged(c: Contents, inode: int)
    requires Unique(c) && At(c, 0, 0)
    ensures var c' := c[0 := c[0][0 := c[0][0].(inode := inode)]];
      Unique(c') && MapOf(c') == MapOf(c)[c[0][0].name := inode]
  {
    assert Look(0);
    var c' := c[0 := c[0][0 := c[0][0].(inode := inode)]];
    forall q, j | At(c', q, j) ensures At(c, q, j) && c'[q][j].name == c[q][j].name {
    }
    var m := MapOf(c)[c[0][0].name := inode];
    forall q, j | At(c', q, j) ensures c'[q][j].name in m && m[c'[q][j].name] == c'[q][j].inode {
      MapAt(c, q, j);
    }
    forall name | name in m ensures Bound(c', name) {
      MapAt(c, 0, 0);
      MapHas(c, name);
      var q, j :| At(c, q, j) && c[q][j].name == name;
      assert At(c', q, j);
    }
    MapIs(c', m);
  }

  /** Enumerating from the start, always with the offset returned, yields every entry once, in
      the order of storage. */
  method EnumerateAll(d: Directory, junk: char) returns (list: seq<Entry>)
    requires d.Valid() && d.isDir
    ensures list == Listing(d.contents)
  {
    list := [];
    var offset: nat := 0;
    RemainingAll(d.contents);
    while true
      invariant list + Remaining(d.contents, offset) == Listing(d.contents)
      decreases |Remaining(d.contents, offset)|
    {
      ghost var rest := Remaining(d.contents, offset);
      NamesFit(d.blocks, d.contents, d.self, d.crippled, offset);
      var r, ino, name := d.Enumerate(offset, NAME_MAX + 1, junk);
      if r == 0 {
        break;
      }
      assert rest == [rest[0]] + rest[1..];
      list := list + [Entry(name, ino)];
      offset := r;
    }
  }

  lemma {:induction false} NamesFit(blocks: seq<DirBlock>, c: Contents, self: int, crippled: bool, offset: nat)
    requires Sound(blocks, c, self, crippled)
    ensures forall k :: 0 <= k < |Remaining(c, offset)| ==> |Remaining(c, offset)[k].name| <= NAME_MAX
  {
    var p, i := RemainingFrom(c, offset);
    ListFits(blocks, c, p, i);
  }

  lemma {:induction false} ListFits(blocks: seq<DirBlock>, c: Contents, p: nat, i: nat)
    requires AllPacked(blocks, c)
    ensures forall k :: 0 <= k < |ListFrom(c, p, i)| ==> |ListFrom(c, p, i)[k].name| <= NAME_MAX
    decreases |c| - p, if p < |c| then |c[p]| - i else 0
  {
    assert Look(0);
    if p < |c| {
      if i >= |c[p]| {
        ListFits(blocks, c, p + 1, 0);
      } else {
        assert GoodEntry(c[p][i]);
        ListFits(blocks, c, p, i + 1);
      }
    }
  }
}
