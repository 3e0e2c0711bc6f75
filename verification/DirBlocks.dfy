// One block of a directory: inode numbers beside a table of NUL-terminated names.

module DirBlocks {
  import opened Geometry
  import opened Blocks

  type Name = seq<char>

  const NUL: char := '\0'
  const DOT: Name := "."
  const DOTDOT: Name := ".."
  const NAME_MAX: nat := 255

  /** How a block is divided: eight bytes for each number, and the rest for names. */
  datatype Division = Division(entries: int, names: int)

  type GoodDivision = s: Division | 3 <= s.entries && NAME_MAX < s.names && 8 * s.entries + s.names == BLOCKSIZE
    witness Division(3, BLOCKSIZE - 24)

  const DIVISION: GoodDivision

  type EntryCount = x: int | 3 <= x witness 3
  type NameSpace = x: int | NAME_MAX < x witness NAME_MAX + 1

  /** Numbers, and bytes of names, in a block. */
  const ENTRIES: EntryCount := DIVISION.entries
  const NAMESPACE: NameSpace := DIVISION.names

  datatype DirBlock = DirBlock(numbers: seq<int>, names: seq<char>)

  datatype Entry = Entry(name: Name, inode: int)

  predicate NarrowAt(name: Name, i: int) {
    0 <= i < |name| ==> name[i] as int < 256
  }

  /** Strings of bytes, none of which is NUL. */
  predicate CString(name: Name) {
    NUL !in name && forall i :: 0 <= i < |name| ==> NarrowAt(name, i)
  }

  /** Names are at most 255 bytes long, and without NUL. */
  predicate GoodName(name: Name) {
    |name| <= NAME_MAX && CString(name)
  }

  /** Inode numbers are not negative when seen as signed 64-bit numbers. */
  predicate GoodNumber(inode: int) {
    0 <= inode < -EOF
  }

  /** The name table of a sequence of entries. */
  ghost function Strings(ents: seq<Entry>): seq<char> {
    if |ents| == 0 then [] else Strings(ents[..|ents| - 1]) + (ents[|ents| - 1].name + [NUL])
  }

  ghost predicate GoodEntry(e: Entry) {
    GoodName(e.name) && GoodNumber(e.inode)
  }

  /** Scanning the block yields these entries. */
  ghost predicate Holds(b: DirBlock, ents: seq<Entry>) {
    && |b.numbers| == ENTRIES && |b.names| == NAMESPACE && |ents| <= ENTRIES
    && forall u :: Look(u) ==>
    && |Strings(ents)| <= NAMESPACE
    && (forall i :: 0 <= i < |ents| ==> GoodEntry(ents[i]))
    && (forall i :: 0 <= i < ENTRIES ==> b.numbers[i] == if i < |ents| then ents[i].inode else EOF)
    && b.names[..|Strings(ents)|] == Strings(ents)
  }

  /** The block holds these entries, and its unused name bytes are zero. */
  ghost predicate Packed(b: DirBlock, ents: seq<Entry>) {
    Holds(b, ents) && forall u :: Look(u) ==> forall k :: |Strings(ents)| <= k < |b.names| ==> b.names[k] == NUL
  }

  lemma {:induction false} StringsConcat(a: seq<Entry>, b: seq<Entry>)
    ensures Strings(a + b) == Strings(a) + Strings(b)
  {
    if |b| == 0 {
      assert a + b == a;
    } else {
      var n := |b| - 1;
      assert (a + b)[..|a + b| - 1] == a + b[..n];
      StringsConcat(a, b[..n]);
    }
  }

  lemma {:induction false} StringsOne(e: Entry)
    ensures Strings([e]) == e.name + [NUL]
  {
    assert [e][..0] == [];
    assert Strings([e][..0]) == [];
  }

  /** The table around entry `i`. */
  lemma {:induction false} StringsAt(ents: seq<Entry>, i: nat)
    requires i < |ents|
    ensures Strings(ents) == Strings(ents[..i]) + (ents[i].name + [NUL]) + Strings(ents[i + 1..])
    ensures Strings(ents[..i + 1]) == Strings(ents[..i]) + (ents[i].name + [NUL])
  {
    assert ents == ents[..i + 1] + ents[i + 1..];
    StringsConcat(ents[..i + 1], ents[i + 1..]);
    assert ents[..i + 1][..i] == ents[..i];
  }

  // ----- scanning -----

  /** Length of the string at `off`. */
  function StrLen(names: seq<char>, off: nat): nat
    requires off <= |names|
    decreases |names| - off
  {
    if off == |names| || names[off] == NUL then 0 else 1 + StrLen(names, off + 1)
  }

  lemma {:induction false} StrLenIs(names: seq<char>, off: nat, name: Name, k: nat)
    requires off + |name| < |names| && k <= |name| && NUL !in name
    requires names[off..off + |name|] == name && names[off + |name|] == NUL
    ensures StrLen(names, off + k) == |name| - k
    decreases |name| - k
  {
    if k < |name| {
      assert names[off + k] == names[off..off + |name|][k] == name[k];
      StrLenIs(names, off, name, k + 1);
    }
  }

  /** What the scan finds at entry `i`. */
  lemma {:induction false} ScanAt(b: DirBlock, ents: seq<Entry>, i: nat, off: nat)
    requires Holds(b, ents) && i < |ents| && off == |Strings(ents[..i])|
    ensures off + |ents[i].name| < |b.names|
    ensures StrLen(b.names, off) == |ents[i].name|
    ensures b.names[off..off + |ents[i].name|] == ents[i].name
    ensures off + |ents[i].name| + 1 == |Strings(ents[..i + 1])| <= |Strings(ents)|
    ensures b.numbers[i] != EOF
  {
    assert Look(0);
    var name := ents[i].name;
    StringsAt(ents, i);
    assert GoodEntry(ents[i]);
    var s := Strings(ents);
    assert s[off..off + |name|] == name && s[off + |name|] == NUL;
    assert b.names[off..off + |name|] == b.names[..|s|][off..off + |name|];
    assert b.names[off + |name|] == b.names[..|s|][off + |name|];
    StrLenIs(b.names, off, name, 0);
  }

  /** The number beside an entry; past the entries there is the end marker. */
  lemma {:induction false} NumberAt(b: DirBlock, ents: seq<Entry>, i: nat)
    requires Holds(b, ents) && i < ENTRIES
    ensures b.numbers[i] != EOF <==> i < |ents|
    ensures i < |ents| ==> b.numbers[i] == ents[i].inode >= 0 && GoodName(ents[i].name)
  {
    assert Look(0);
    if i < |ents| {
      assert GoodEntry(ents[i]);
    }
  }

  // ----- taking an entry out -----

  /** `gap` elements at `at` are gone, those after them have moved down, and the end is filled. */
  ghost function Down<T>(s: seq<T>, at: nat, gap: nat, fill: T): (r: seq<T>)
    requires at + gap <= |s|
    ensures |r| == |s|
  {
    s[..at] + s[at + gap..] + seq(gap, _ => fill)
  }

  /** The memmove and memset of a removal, in place. */
  method MoveDown<T>(a: array<T>, at: nat, gap: nat, fill: T)
    requires at + gap <= a.Length
    modifies a
    ensures a[..] == Down(old(a[..]), at, gap, fill)
  {
    var end := a.Length - gap;
    forall k | at <= k < end {
      a[k] := a[k + gap];
    }
    forall k | end <= k < a.Length {
      a[k] := fill;
    }
  }

  lemma {:induction false} DownNames(names: seq<char>, a: seq<char>, b: seq<char>, c: seq<char>)
    requires |a + b + c| <= |names| && names[..|a + b + c|] == a + b + c
    requires forall k :: |a + b + c| <= k < |names| ==> names[k] == NUL
    ensures var r := Down(names, |a|, |b|, NUL);
      && r[..|a + c|] == a + c && forall k :: |a + c| <= k < |r| ==> r[k] == NUL
  {
    var r, n := Down(names, |a|, |b|, NUL), |a + b + c|;
    forall k | 0 <= k < |a + c| ensures r[k] == (a + c)[k] {
      var from := if k < |a| then k else k + |b|;
      assert names[from] == names[..n][from] == (a + b + c)[from];
    }
  }

  /** Taking entry `i` out of both tables leaves the other entries. */
  lemma {:induction false} TakenPacked(b: DirBlock, ents: seq<Entry>, i: nat, nameoff: nat, gap: nat)
    requires Packed(b, ents) && i < |ents| && nameoff == |Strings(ents[..i])| && gap == |ents[i].name| + 1
    ensures nameoff + gap <= |b.names|
    ensures Packed(DirBlock(Down(b.numbers, i, 1, EOF), Down(b.names, nameoff, gap, NUL)), ents[..i] + ents[i + 1..])
  {
    assert Look(0);
    var rest := ents[..i] + ents[i + 1..];
    StringsAt(ents, i);
    StringsConcat(ents[..i], ents[i + 1..]);
    DownNames(b.names, Strings(ents[..i]), ents[i].name + [NUL], Strings(ents[i + 1..]));
    forall j | 0 <= j < |rest| ensures GoodEntry(rest[j]) {
      assert rest[j] == if j < i then ents[j] else ents[j + 1];
    }
  }

  // ----- adding an entry -----

  /** The name and the number of an entry have been written after those of the others. */
  lemma {:induction false} PutPacked(b: DirBlock, ents: seq<Entry>, e: Entry, off: nat, b': DirBlock)
    requires Packed(b, ents) && GoodEntry(e) && |ents| < ENTRIES && off == |Strings(ents)| && off + |e.name| < NAMESPACE
    requires b'.numbers == b.numbers[|ents| := e.inode] && |b'.names| == NAMESPACE
    requires forall k :: 0 <= k < NAMESPACE ==>
      b'.names[k] == if off <= k < off + |e.name| then e.name[k - off] else b.names[k]
    ensures Packed(b', ents + [e])
  {
    assert Look(0);
    var ents', s := ents + [e], Strings(ents);
    StringsConcat(ents, [e]);
    StringsOne(e);
    forall i | 0 <= i < |ents'| ensures GoodEntry(ents'[i]) {
      assert i < |ents| ==> GoodEntry(ents[i]);
    }
    NamesPut(b.names, s, e.name, b'.names);
  }

  lemma {:induction false} NamesPut(names: seq<char>, s: seq<char>, name: Name, names': seq<char>)
    requires |names'| == |names| > |s| + |name| && names[..|s|] == s
    requires forall k :: |s| <= k < |names| ==> names[k] == NUL
    requires forall k :: 0 <= k < |names| ==>
      names'[k] == if |s| <= k < |s| + |name| then name[k - |s|] else names[k]
    ensures names'[..|s| + |name| + 1] == s + (name + [NUL])
    ensures forall k :: |s| + |name| + 1 <= k < |names'| ==> names'[k] == NUL
  {
    var r, t := names'[..|s| + |name| + 1], s + (name + [NUL]);
    forall k | 0 <= k < |t| ensures r[k] == t[k] {
      assert k < |s| ==> names[k] == names[..|s|][k];
    }
  }

  // ----- the buffer a block is edited in -----

  class Buffer {
    const numbers: array<int>
    const names: array<char>

    constructor ()
      ensures numbers.Length == ENTRIES && names.Length == NAMESPACE && fresh(numbers) && fresh(names)
    {
      numbers := new int[ENTRIES](_ => EOF);
      names := new char[NAMESPACE](_ => NUL);
    }

    ghost predicate Sized() {
      numbers.Length == ENTRIES && names.Length == NAMESPACE
    }

    function Block(): DirBlock
      reads numbers, names
    {
      DirBlock(numbers[..], names[..])
    }

    /** Reads a block in. */
    method Load(b: DirBlock)
      requires Sized() && |b.numbers| == ENTRIES && |b.names| == NAMESPACE
      modifies numbers, names
      ensures Block() == b
    {
      forall i | 0 <= i < numbers.Length {
        numbers[i] := b.numbers[i];
      }
      forall k | 0 <= k < names.Length {
        names[k] := b.names[k];
      }
    }

    /** An empty block. */
    method Clear()
      requires Sized()
      modifies numbers, names
      ensures Packed(Block(), [])
    {
      forall i | 0 <= i < numbers.Length {
        numbers[i] := EOF;
      }
      forall k | 0 <= k < names.Length {
        names[k] := NUL;
      }
    }

    /** Looks for a name: where it is, or else where the entries end. */
    method Scan(name: Name, ghost ents: seq<Entry>) returns (found: bool, i: nat, nameoff: nat)
      requires Sized() && Holds(Block(), ents)
      ensures found ==> i < |ents| && ents[i].name == name && nameoff == |Strings(ents[..i])|
      ensures !found ==> i == |ents| && nameoff == |Strings(ents)| && forall j :: 0 <= j < |ents| ==>
        ents[j].name != name
    {
      i, nameoff := 0, 0;
      while i < ENTRIES && numbers[i] != EOF
        invariant i <= |ents| && nameoff == |Strings(ents[..i])|
        invariant forall j :: 0 <= j < i ==> ents[j].name != name
      {
        NumberAt(Block(), ents, i);
        ScanAt(Block(), ents, i, nameoff);
        var curlen := StrLen(names[..], nameoff);
        if curlen == |name| && names[nameoff..nameoff + curlen] == name {
          return true, i, nameoff;
        }
        nameoff := nameoff + curlen + 1;
        i := i + 1;
      }
      if i < ENTRIES {
        NumberAt(Block(), ents, i);
      }
      assert ents[..i] == ents;
      return false, i, nameoff;
    }

    /** The name of entry `idx`, cut to `namesize` - 1 bytes. */
    method NameAt(idx: nat, namesize: nat, ghost ents: seq<Entry>) returns (name: Name)
      requires Sized() && Holds(Block(), ents) && idx < |ents| && namesize > 0
      ensures name == if |ents[idx].name| < namesize then ents[idx].name else ents[idx].name[..namesize - 1]
    {
      var nameoff := 0;
      for i := 0 to idx
        invariant nameoff == |Strings(ents[..i])|
      {
        ScanAt(Block(), ents, i, nameoff);
        nameoff := nameoff + StrLen(names[..], nameoff) + 1;
      }
      ScanAt(Block(), ents, idx, nameoff);
      var size := StrLen(names[..], nameoff);
      if size > namesize - 1 {
        size := namesize - 1;
      }
      return names[nameoff..nameoff + size];
    }

    /** Adds an entry. No terminator is written: the byte after the name is zero already. */
    method Put(i: nat, nameoff: nat, name: Name, target: int, ghost ents: seq<Entry>)
      requires Sized() && Packed(Block(), ents) && GoodName(name) && GoodNumber(target)
      requires i == |ents| < ENTRIES && nameoff == |Strings(ents)| && NAMESPACE - nameoff > |name|
      modifies numbers, names
      ensures Packed(Block(), ents + [Entry(name, target)])
    {
      ghost var was := Block();
      assert |Strings(ents)| <= NAMESPACE by {
        assert Look(0);
      }
      forall k | 0 <= k < |name| {
        names[nameoff + k] := name[k];
      }
      numbers[i] := target;
      PutPacked(was, ents, Entry(name, target), nameoff, Block());
    }

    /** Takes entry `i` out: both tables are moved down, and the ends cleared. */
    method Take(i: nat, nameoff: nat, namesize: nat, ghost ents: seq<Entry>)
      requires Sized() && Packed(Block(), ents)
      requires i < |ents| && nameoff == |Strings(ents[..i])| && namesize == |ents[i].name|
      modifies numbers, names
      ensures Packed(Block(), ents[..i] + ents[i + 1..])
    {
      ghost var was := Block();
      ScanAt(was, ents, i, nameoff);
      TakenPacked(was, ents, i, nameoff, namesize + 1);
      MoveDown(numbers, i, 1, EOF);
      MoveDown(names, nameoff, namesize + 1, NUL);
    }
  }
}
