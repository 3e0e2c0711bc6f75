// How a directory block is stored: numbers as eight bytes each, the least significant one first, and
// then the bytes of the name table.

module DirLayout {
  import opened Geometry
  import opened Blocks
  import opened DirBlocks

  /** The `k` low bytes of a number. */
  function NumberBytes(x: int, k: nat): (bytes: seq<Byte>)
    ensures |bytes| == k
    decreases k, x
  {
    if k == 0 then [] else [(x % 256) as Byte] + NumberBytes(x / 256, k - 1)
  }

  /** The signed number that bytes stand for. */
  function NumberOf(bytes: seq<Byte>): int {
    if |bytes| == 0 then 0
    else if |bytes| == 1 then (if bytes[0] < 128 then bytes[0] as int else bytes[0] as int - 256)
    else bytes[0] as int + 256 * NumberOf(bytes[1..])
  }

  /** Numbers of `k` bytes lie between this, negated, and this. */
  function Half(k: nat): int {
    if k <= 1 then 128 else 256 * Half(k - 1)
  }

  lemma {:induction false} NumberBack(x: int, k: nat)
    requires k > 0 && -Half(k) <= x < Half(k)
    ensures NumberOf(NumberBytes(x, k)) == x
    decreases k
  {
    var bytes := NumberBytes(x, k);
    if k == 1 {
      assert bytes == [(x % 256) as Byte];
    } else {
      NumberBack(x / 256, k - 1);
      assert bytes[1..] == NumberBytes(x / 256, k - 1);
    }
  }

  function NumbersBytes(numbers: seq<int>): (bytes: seq<Byte>)
    ensures |bytes| == 8 * |numbers|
  {
    if |numbers| == 0 then [] else NumbersBytes(numbers[..|numbers| - 1]) + NumberBytes(numbers[|numbers| - 1], 8)
  }

  lemma {:induction false} NumberWithin(numbers: seq<int>, i: nat)
    requires i < |numbers|
    ensures NumbersBytes(numbers)[8 * i..8 * i + 8] == NumberBytes(numbers[i], 8)
  {
    var n := |numbers| - 1;
    var rest := numbers[..n];
    var init, last := NumbersBytes(rest), NumberBytes(numbers[n], 8);
    if i < n {
      NumberWithin(rest, i);
    }
    PartOf(init, last, 8 * i, 8);
  }

  /** A part of a sequence that lies in its first half, or is its second. */
  lemma {:induction false} PartOf(init: seq<Byte>, last: seq<Byte>, from: nat, size: nat)
    ensures from + size <= |init| ==> (init + last)[from..from + size] == init[from..from + size]
    ensures from == |init| && size == |last| ==> (init + last)[from..from + size] == last
  {
  }

  function NamesBytes(names: seq<char>): (bytes: seq<Byte>)
    ensures |bytes| == |names|
  {
    seq(|names|, k requires 0 <= k < |names| => (names[k] as int % 256) as Byte)
  }

  /** The bytes of a block. */
  function BlockBytes(b: DirBlock): (bytes: seq<Byte>)
    ensures |bytes| == BLOCKSIZE
  {
    var bytes := NumbersBytes(b.numbers) + NamesBytes(b.names);
    seq(BLOCKSIZE, k requires 0 <= k < BLOCKSIZE => if k < |bytes| then bytes[k] else 0)
  }

  function NumbersIn(bytes: seq<Byte>): (numbers: seq<int>)
    requires |bytes| == BLOCKSIZE
    ensures |numbers| == ENTRIES
  {
    seq(ENTRIES, i requires 0 <= i < ENTRIES => NumberOf(bytes[8 * i..8 * i + 8]))
  }

  function NamesIn(bytes: seq<Byte>): (names: seq<char>)
    requires |bytes| == BLOCKSIZE
    ensures |names| == NAMESPACE
  {
    seq(NAMESPACE, k requires 0 <= k < NAMESPACE => bytes[8 * ENTRIES + k] as int as char)
  }

  /** The block seen in such bytes. */
  function BlockIn(bytes: seq<Byte>): (b: DirBlock)
    requires |bytes| == BLOCKSIZE
    ensures |b.numbers| == ENTRIES && |b.names| == NAMESPACE
  {
    DirBlock(NumbersIn(bytes), NamesIn(bytes))
  }

  /** Numbers of 64 bits, and characters of 8. */
  ghost predicate Storable(b: DirBlock) {
    && |b.numbers| == ENTRIES && |b.names| == NAMESPACE
    && (forall i :: 0 <= i < ENTRIES ==> EOF <= b.numbers[i] < -EOF)
    && forall k :: 0 <= k < NAMESPACE ==> b.names[k] as int < 256
  }

  /** What is stored is what is seen. */
  lemma {:induction false} BlockBack(b: DirBlock)
    requires Storable(b)
    ensures BlockIn(BlockBytes(b)) == b
  {
    var numbers, names := NumbersBytes(b.numbers), NamesBytes(b.names);
    assert BlockBytes(b) == numbers + names;
    NumbersBack(b, numbers, names);
    NamesBack(b, numbers, names);
  }

  lemma {:induction false} NumbersBack(b: DirBlock, numbers: seq<Byte>, names: seq<Byte>)
    requires Storable(b) && numbers == NumbersBytes(b.numbers) && |names| == NAMESPACE
    ensures NumbersIn(numbers + names) == b.numbers
  {
    assert Half(8) == -EOF;
    forall i | 0 <= i < ENTRIES ensures NumbersIn(numbers + names)[i] == b.numbers[i] {
      NumberWithin(b.numbers, i);
      PartOf(numbers, names, 8 * i, 8);
      NumberBack(b.numbers[i], 8);
    }
  }

  lemma {:induction false} NamesBack(b: DirBlock, numbers: seq<Byte>, names: seq<Byte>)
    requires Storable(b) && |numbers| == 8 * ENTRIES && names == NamesBytes(b.names)
    ensures NamesIn(numbers + names) == b.names
  {
    forall k | 0 <= k < NAMESPACE ensures NamesIn(numbers + names)[k] == b.names[k] {
      assert (numbers + names)[8 * ENTRIES + k] == names[k];
    }
  }

  /** The blocks of directories can be stored. */
  lemma {:induction false} PackedStorable(b: DirBlock, ents: seq<Entry>)
    requires Packed(b, ents)
    ensures Storable(b)
  {
    assert Look(0);
    forall i | 0 <= i < ENTRIES ensures EOF <= b.numbers[i] < -EOF {
      if i < |ents| {
        assert GoodEntry(ents[i]);
      }
    }
    NarrowStrings(ents);
    forall k | 0 <= k < NAMESPACE ensures b.names[k] as int < 256 {
      if k < |Strings(ents)| {
        assert b.names[k] == b.names[..|Strings(ents)|][k];
        assert NarrowAt(Strings(ents), k);
      }
    }
  }

  lemma {:induction false} NarrowStrings(ents: seq<Entry>)
    requires forall i :: 0 <= i < |ents| ==> GoodEntry(ents[i])
    ensures forall k :: NarrowAt(Strings(ents), k)
  {
    if |ents| > 0 {
      var n := |ents| - 1;
      NarrowStrings(ents[..n]);
      var init, name := Strings(ents[..n]), ents[n].name;
      assert GoodEntry(ents[n]);
      forall k ensures NarrowAt(Strings(ents), k) {
        assert NarrowAt(init, k) && NarrowAt(name, k - |init|);
      }
    }
  }

  /** A block that is not full of names ends with a zero byte. */
  lemma {:induction false} LastByteZero(b: DirBlock)
    requires Storable(b) && b.names[NAMESPACE - 1] == NUL
    ensures BlockBytes(b)[BLOCKSIZE - 1] == 0
  {
    var names := NamesBytes(b.names);
    assert names[NAMESPACE - 1] == 0;
  }

  /** A block has one reading. */
  lemma {:induction false} PackedUnique(b: DirBlock, ents: seq<Entry>, ents': seq<Entry>)
    requires Holds(b, ents) && Holds(b, ents')
    ensures ents == ents'
  {
    var n := if |ents| < |ents'| then |ents| else |ents'|;
    SameEntries(b, ents, ents', n);
    if n < ENTRIES {
      NumberAt(b, ents, n);
      NumberAt(b, ents', n);
    }
    assert ents[..n] == ents && ents'[..n] == ents';
  }

  lemma {:induction false} SameEntries(b: DirBlock, ents: seq<Entry>, ents': seq<Entry>, n: nat)
    requires Holds(b, ents) && Holds(b, ents') && n <= |ents| && n <= |ents'|
    ensures ents[..n] == ents'[..n]
  {
    if n > 0 {
      var i := n - 1;
      SameEntries(b, ents, ents', i);
      var off := |Strings(ents[..i])|;
      ScanAt(b, ents, i, off);
      ScanAt(b, ents', i, off);
      NumberAt(b, ents, i);
      NumberAt(b, ents', i);
      assert ents[i] == ents'[i];
      assert ents[..n] == ents[..i] + [ents[i]] && ents'[..n] == ents'[..i] + [ents'[i]];
    }
  }
}
