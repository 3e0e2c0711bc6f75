// The free-block list and the free-inode list of block.c.

module FreeLists {
  import opened Geometry
  import opened Blocks

  /** What the two lists stand for. Both are kept bottom first: the last element is the head
      recorded in the superblock. */
  datatype View = View(
    chain: seq<int>,     // the free-list blocks
    free: set<int>,      // all free blocks
    entries: seq<int>,   // the inode table, by inode number
    spare: seq<int>,     // the free inode numbers
    held: set<int>)      // inode numbers taken off the list but not yet given a block

  /** Negation of a signed 64-bit number: the smallest one is its own negation. */
  function Neg(x: int): int {
    if x == EOF then EOF else -x
  }

  /** What the `i`th element of a list is linked to; for its length, the head. */
  ghost function Below(list: seq<int>, i: int): int {
    if 0 < i <= |list| then list[i - 1] else EOF
  }

  /** First block of the data area. */
  ghost function DataStart(img: Image): (lo: int)
    ensures lo >= 1
  {
    if 0 < |img| && img[0].Super? then img[0].ilistSize + 1 else 1
  }

  // ----- free blocks -----

  /** How often `x` is listed. */
  ghost function Listed(blocks: seq<int>, x: int): nat {
    if |blocks| == 0 then 0 else Listed(blocks[..|blocks| - 1], x) + One(blocks[|blocks| - 1], x)
  }

  /** How often `x` occurs among the bottom `k` free-list blocks and what they list. */
  ghost function Collected(img: Image, chain: seq<int>, k: nat, x: int): nat {
    if k == 0 then 0
    else Collected(img, chain, k - 1, x) + One(Below(chain, k), x) + ListedIn(img, Below(chain, k), x)
  }

  ghost function ListedIn(img: Image, c: int, x: int): nat {
    if 0 <= c < |img| && img[c].FreelistBlock? then Listed(img[c].blocks, x) else 0
  }

  ghost predicate NodeOk(img: Image, chain: seq<int>, i: int) {
    0 <= i < |chain| ==>
      && 0 < chain[i] < |img| && img[chain[i]].FreelistBlock?
      && |img[chain[i]].blocks| == N - 1 && img[chain[i]].next == Below(chain, i)
  }

  /** A free block occurs in the list once, and lies in the data area. */
  ghost predicate FreeAt(img: Image, chain: seq<int>, free: set<int>, x: int) {
    && (x != EOF ==> Collected(img, chain, |chain|, x) == In(free, x))
    && (x in free ==> DataStart(img) <= x < |img|)
  }

  ghost predicate FreeBlocksOk(img: Image, v: View) {
    && 0 < |img| && img[0].Super? && DataStart(img) <= |img|
    && img[0].freelistStart == Below(v.chain, |v.chain|)
    && (forall i :: NodeOk(img, v.chain, i))
    && (forall x :: FreeAt(img, v.chain, v.free, x))
    && img[0].freeBlocks == |v.free|
  }

  // ----- free inodes -----

  ghost predicate EntryAt(img: Image, entries: seq<int>, j: int) {
    0 <= j < |entries| ==>
      && 1 <= 1 + j / N < DataStart(img) <= |img|
      && img[1 + j / N].IlistBlock? && |img[1 + j / N].entries| == N
      && img[1 + j / N].entries[j % N] == entries[j]
  }

  /** Zero is its own negation, so it could not be told from a block number: it is never a link. */
  ghost predicate SpareAt(entries: seq<int>, spare: seq<int>, i: int) {
    0 <= i < |spare| ==>
      && 0 <= spare[i] < |entries| && entries[spare[i]] == Neg(Below(spare, i))
      && (i < |spare| - 1 ==> spare[i] != 0)
  }

  ghost predicate Apart(spare: seq<int>, i: int, j: int) {
    0 <= i < j < |spare| ==> spare[i] != spare[j]
  }

  /** Entries are negative exactly on the free numbers and on those just taken. */
  ghost predicate SignAt(entries: seq<int>, spare: seq<int>, held: set<int>, j: int) {
    && (0 <= j < |entries| ==> (entries[j] < 0 <==> j in spare || j in held))
    && (j in held ==> 0 <= j < |entries| && j !in spare)
  }

  ghost predicate InodesOk(img: Image, v: View) {
    && 0 < |img| && img[0].Super? && DataStart(img) <= |img|
    && |v.entries| == img[0].ilistSize * N < -EOF
    && (forall j :: EntryAt(img, v.entries, j))
    && img[0].inoFreelistStart == Below(v.spare, |v.spare|)
    && (forall i :: SpareAt(v.entries, v.spare, i))
    && (forall i, j :: Apart(v.spare, i, j))
    && (forall j :: SignAt(v.entries, v.spare, v.held, j))
    && img[0].freeInodes == |v.spare|
  }

  ghost predicate Mounted(img: Image, v: View) {
    FreeBlocksOk(img, v) && InodesOk(img, v)
  }

  // ----- the free-block list -----

  lemma {:induction false} ListedUpdate(blocks: seq<int>, i: nat, block: int, x: int)
    requires i < |blocks|
    ensures Listed(blocks[i := block], x) + One(blocks[i], x) == Listed(blocks, x) + One(block, x)
  {
    var n := |blocks| - 1;
    if i == n {
      assert blocks[i := block][..n] == blocks[..n];
    } else {
      assert blocks[i := block][..n] == blocks[..n][i := block];
      ListedUpdate(blocks[..n], i, block, x);
    }
  }

  lemma {:induction false} NothingListed(blocks: seq<int>, x: int)
    requires x != EOF && forall i :: 0 <= i < |blocks| ==> blocks[i] == EOF
    ensures Listed(blocks, x) == 0
  {
    if |blocks| > 0 {
      NothingListed(blocks[..|blocks| - 1], x);
    }
  }

  lemma {:induction false} CollectedMember(img: Image, chain: seq<int>, k: nat, i: nat)
    requires i < k <= |chain|
    ensures Collected(img, chain, k, chain[i]) > 0
  {
    if i < k - 1 {
      CollectedMember(img, chain, k - 1, i);
    }
  }

  lemma {:induction false} CollectedFrame(before: Image, after: Image, chain: seq<int>, chain': seq<int>, k: nat,
                                          x: int)
    requires k <= |chain| && k <= |chain'| && |before| == |after|
    requires forall i :: 0 <= i < k ==> chain'[i] == chain[i]
    requires forall i :: 0 <= i < k && 0 <= chain[i] < |before| ==> after[chain[i]] == before[chain[i]]
    ensures Collected(after, chain', k, x) == Collected(before, chain, k, x)
  {
    if k > 0 {
      CollectedFrame(before, after, chain, chain', k - 1, x);
    }
  }

  /** Every free-list block is free, so lies in the data area. */
  lemma {:induction false} NodeFree(img: Image, v: View, i: nat)
    requires FreeBlocksOk(img, v) && i < |v.chain|
    ensures v.chain[i] in v.free && DataStart(img) <= v.chain[i] < |img|
    ensures NodeOk(img, v.chain, i)
  {
    assert NodeOk(img, v.chain, i);
    CollectedMember(img, v.chain, |v.chain|, i);
    assert FreeAt(img, v.chain, v.free, v.chain[i]);
  }

  /** The head of the list differs from every block below it. */
  lemma {:induction false} HeadApart(img: Image, v: View, i: nat)
    requires FreeBlocksOk(img, v) && i < |v.chain| - 1
    ensures v.chain[i] != v.chain[|v.chain| - 1]
  {
    var n := |v.chain|;
    CollectedMember(img, v.chain, n - 1, i);
    NodeFree(img, v, i);
    assert FreeAt(img, v.chain, v.free, v.chain[i]);
  }

  /** The superblock and one other block have been rewritten. */
  ghost predicate Rewrote(before: Image, after: Image, super: Block, x: int, b: Block) {
    && |before| == |after| && 0 < x < |before|
    && after[0] == super && after[x] == b
    && forall y :: 0 < y < |before| && y != x ==> after[y] == before[y]
  }

  /** The chain up to `n` blocks is unaffected by rewriting block `x` outside it. */
  lemma {:induction false} ChainKept(before: Image, after: Image, chain: seq<int>, chain': seq<int>, n: nat, x: int)
    requires n <= |chain| && n <= |chain'| && |before| == |after|
    requires forall i :: 0 <= i < n ==> chain'[i] == chain[i]
    requires forall i :: 0 <= i < n ==> NodeOk(before, chain, i) && chain[i] != x
    requires forall y :: 0 < y < |before| && y != x ==> after[y] == before[y]
    ensures forall i :: 0 <= i < n ==> NodeOk(after, chain', i)
    ensures forall y :: Collected(after, chain', n, y) == Collected(before, chain, n, y)
  {
    forall i | 0 <= i < n ensures NodeOk(after, chain', i) {
      assert NodeOk(before, chain, i);
      assert Below(chain', i) == Below(chain, i);
    }
    forall y ensures Collected(after, chain', n, y) == Collected(before, chain, n, y) {
      forall i | 0 <= i < n ensures after[chain[i]] == before[chain[i]] {
        assert NodeOk(before, chain, i);
      }
      CollectedFrame(before, after, chain, chain', n, y);
    }
  }

  ghost predicate HeadIs(img: Image, v: View, head: int, list: Block) {
    && |v.chain| > 0 && head == v.chain[|v.chain| - 1]
    && 0 < head < |img| && img[head] == list && list.FreelistBlock? && |list.blocks| == N - 1
  }

  /** Entry `i` of the head of the list changes from `was` to `now`; one of them is a block. */
  lemma {:induction false} HeadEntry(before: Image, after: Image, v: View, v': View, head: int, list: Block, i: nat,
                                     now: int)
    requires FreeBlocksOk(before, v) && HeadIs(before, v, head, list) && i < N - 1
    requires var was := list.blocks[i];
      && Rewrote(before, after, before[0].(freeBlocks := |v'.free|), head, list.(blocks := list.blocks[i := now]))
      && v' == v.(free := v'.free)
      && (forall x :: x != EOF ==> In(v'.free, x) + One(was, x) == In(v.free, x) + One(now, x))
      && (forall x :: x in v'.free && x !in v.free ==> DataStart(before) <= x < |before|)
    ensures FreeBlocksOk(after, v')
  {
    var n := |v.chain| - 1;
    forall k | 0 <= k < n ensures NodeOk(before, v.chain, k) && v.chain[k] != head {
      HeadApart(before, v, k);
    }
    ChainKept(before, after, v.chain, v.chain, n, head);
    assert NodeOk(before, v.chain, n);
    forall k ensures NodeOk(after, v'.chain, k) {
      assert 0 <= k < n ==> NodeOk(after, v.chain, k);
    }
    forall x ensures FreeAt(after, v'.chain, v'.free, x) {
      assert FreeAt(before, v.chain, v.free, x);
      ListedUpdate(list.blocks, i, now, x);
    }
  }

  /** The head of the list, listing nothing, is taken off. */
  lemma {:induction false} HeadOff(before: Image, after: Image, v: View, v': View, head: int, list: Block)
    requires FreeBlocksOk(before, v) && HeadIs(before, v, head, list)
    requires forall i :: 0 <= i < N - 1 ==> list.blocks[i] == EOF
    requires after == before[0 := before[0].(freelistStart := list.next, freeBlocks := |v'.free|)]
    requires v' == v.(chain := v.chain[..|v.chain| - 1], free := v'.free)
    requires forall x :: x in v'.free <==> x in v.free && x != head
    ensures FreeBlocksOk(after, v')
  {
    var n := |v.chain| - 1;
    forall k | 0 <= k < n ensures NodeOk(before, v.chain, k) && v.chain[k] != head {
      HeadApart(before, v, k);
    }
    ChainKept(before, after, v.chain, v'.chain, n, head);
    assert NodeOk(before, v.chain, n);
    forall k ensures NodeOk(after, v'.chain, k) {
      assert 0 <= k < n ==> NodeOk(after, v'.chain, k);
    }
    forall x ensures FreeAt(after, v'.chain, v'.free, x) {
      assert FreeAt(before, v.chain, v.free, x);
      NodeFree(before, v, n);
      if x != EOF {
        NothingListed(list.blocks, x);
      }
    }
  }

  /** A block that was not free becomes the head of the list. */
  lemma {:induction false} HeadOn(before: Image, after: Image, v: View, v': View, block: int, list: Block)
    requires FreeBlocksOk(before, v)
    requires list.FreelistBlock? && |list.blocks| == N - 1 && list.next == before[0].freelistStart
    requires forall i :: 0 <= i < N - 1 ==> list.blocks[i] == EOF
    requires DataStart(before) <= block < |before| && block !in v.free
    requires Rewrote(before, after, before[0].(freelistStart := block, freeBlocks := |v'.free|), block, list)
    requires v' == v.(chain := v.chain + [block], free := v'.free)
    requires forall x :: x in v'.free <==> x in v.free || x == block
    ensures FreeBlocksOk(after, v')
  {
    var n := |v.chain|;
    forall k | 0 <= k < n ensures NodeOk(before, v.chain, k) && v.chain[k] != block {
      NodeFree(before, v, k);
    }
    ChainKept(before, after, v.chain, v'.chain, n, block);
    forall k ensures NodeOk(after, v'.chain, k) {
      assert 0 <= k < n ==> NodeOk(after, v'.chain, k);
    }
    forall x ensures FreeAt(after, v'.chain, v'.free, x) {
      assert FreeAt(before, v.chain, v.free, x);
      if x != EOF {
        NothingListed(list.blocks, x);
      }
    }
  }

  /** Changes to the data area and to the block counters of the superblock keep the inode lists. */
  lemma {:induction false} InodesFrame(before: Image, after: Image, v: View, v': View)
    requires InodesOk(before, v)
    requires |after| == |before| && SuperKept(before[0], after[0])
    requires forall x :: 0 < x < DataStart(before) ==> after[x] == before[x]
    requires v' == v.(chain := v'.chain, free := v'.free)
    ensures InodesOk(after, v')
  {
    forall j ensures EntryAt(after, v'.entries, j) {
      assert EntryAt(before, v.entries, j);
    }
  }

  /** Such changes neither break nor mend the inode lists. */
  lemma {:induction false} InodesSame(before: Image, after: Image, v: View, v': View)
    requires 0 < |before| == |after| && before[0].Super? && SuperKept(before[0], after[0])
    requires forall x :: 0 < x < DataStart(before) && x < |before| ==> after[x] == before[x]
    requires v' == v.(chain := v'.chain, free := v'.free)
    ensures InodesOk(after, v') <==> InodesOk(before, v)
  {
    if InodesOk(before, v) {
      InodesFrame(before, after, v, v');
    }
    if InodesOk(after, v') {
      InodesFrame(after, before, v', v);
    }
  }

  /** Rewriting a data-area block that is not free disturbs neither list. */
  lemma {:induction false} OwnWrite(before: Image, after: Image, v: View, x: int)
    requires Mounted(before, v)
    requires DataStart(before) <= x < |before| && x !in v.free
    requires |after| == |before| && forall y :: 0 <= y < |before| && y != x ==> after[y] == before[y]
    ensures Mounted(after, v)
  {
    var n := |v.chain|;
    forall k | 0 <= k < n ensures NodeOk(before, v.chain, k) && v.chain[k] != x {
      NodeFree(before, v, k);
    }
    ChainKept(before, after, v.chain, v.chain, n, x);
    forall k ensures NodeOk(after, v.chain, k) {
      assert 0 <= k < n ==> NodeOk(after, v.chain, k);
    }
    forall y ensures FreeAt(after, v.chain, v.free, y) {
      assert FreeAt(before, v.chain, v.free, y);
    }
    InodesFrame(before, after, v, v);
  }

  // ----- the free-inode list -----

  /** Changes below the data area keep the free-block list. */
  lemma {:induction false} FreeFrame(before: Image, after: Image, v: View, v': View)
    requires FreeBlocksOk(before, v)
    requires |after| == |before| && after[0].Super? && after[0].ilistSize == before[0].ilistSize
    requires after[0].freelistStart == before[0].freelistStart && after[0].freeBlocks == before[0].freeBlocks
    requires forall x :: DataStart(before) <= x < |before| ==> after[x] == before[x]
    requires v'.chain == v.chain && v'.free == v.free
    ensures FreeBlocksOk(after, v')
  {
    forall k | 0 <= k < |v.chain| ensures 0 <= v.chain[k] < |before| && after[v.chain[k]] == before[v.chain[k]] {
      NodeFree(before, v, k);
    }
    forall k ensures NodeOk(after, v'.chain, k) {
      assert NodeOk(before, v.chain, k);
    }
    forall y ensures FreeAt(after, v'.chain, v'.free, y) {
      assert FreeAt(before, v.chain, v.free, y);
      CollectedFrame(before, after, v.chain, v.chain, |v.chain|, y);
    }
  }

  /** Storing in one table entry changes that entry only. */
  lemma {:induction false} EntryStored(before: Image, after: Image, entries: seq<int>, j: nat, value: int, i: int)
    requires j < |entries| && EntryAt(before, entries, j) && EntryAt(before, entries, i)
    requires |after| == |before| && DataStart(after) == DataStart(before)
    requires after[1 + j / N] == IlistBlock(before[1 + j / N].entries[j % N := value])
    requires forall x :: 0 < x < |before| && x != 1 + j / N ==> after[x] == before[x]
    ensures EntryAt(after, entries[j := value], i)
  {
    if 0 <= i < |entries| && i != j {
      Divide(i, N);
      Divide(j, N);
      if i / N == j / N {
        assert i % N != j % N;
      }
    }
  }

  /** The view after number `j` has been given block `block`. */
  ghost function Given(v: View, j: nat, block: int): View
    requires j < |v.entries|
  {
    v.(entries := v.entries[j := block], held := v.held - {j})
  }

  /** The view after number `j` has been put back on the list. */
  ghost function Returned(v: View, j: nat): View
    requires j < |v.entries|
  {
    v.(entries := v.entries[j := Neg(Below(v.spare, |v.spare|))], spare := v.spare + [j], held := v.held - {j})
  }

  lemma {:induction false} GivenOk(before: Image, after: Image, v: View, j: nat, block: int)
    requires Mounted(before, v) && j in v.held && block >= 0
    requires |after| == |before| && after[0] == before[0] && 1 <= 1 + j / N < DataStart(before)
    requires before[1 + j / N].IlistBlock? && |before[1 + j / N].entries| == N
    requires after[1 + j / N] == IlistBlock(before[1 + j / N].entries[j % N := block])
    requires forall x :: 0 < x < |before| && x != 1 + j / N ==> after[x] == before[x]
    requires j < |v.entries|
    ensures Mounted(after, Given(v, j, block))
  {
    var v' := Given(v, j, block);
    FreeFrame(before, after, v, v');
    assert SignAt(v.entries, v.spare, v.held, j);
    forall i ensures EntryAt(after, v'.entries, i) {
      assert EntryAt(before, v.entries, i) && EntryAt(before, v.entries, j);
      EntryStored(before, after, v.entries, j, block, i);
    }
    forall i ensures SpareAt(v'.entries, v'.spare, i) {
      assert SpareAt(v.entries, v.spare, i);
    }
    forall i ensures SignAt(v'.entries, v'.spare, v'.held, i) {
      assert SignAt(v.entries, v.spare, v.held, i);
    }
  }

  /** Putting a number back keeps the list exactly if its head is not inode 0, whose negated
      number would read as an inode block. */
  lemma {:induction false} ReturnedExactCondition(before: Image, after: Image, v: View, j: nat)
    requires Mounted(before, v) && j < |v.entries| && j !in v.spare
    requires |after| == |before| && 1 <= 1 + j / N < DataStart(before)
    requires before[1 + j / N].IlistBlock? && |before[1 + j / N].entries| == N
    requires after[0] == before[0].(inoFreelistStart := j, freeInodes := before[0].freeInodes + 1)
    requires after[1 + j / N] == IlistBlock(before[1 + j / N].entries[j % N := Neg(before[0].inoFreelistStart)])
    requires forall x :: 0 < x < |before| && x != 1 + j / N ==> after[x] == before[x]
    ensures InodesOk(after, Returned(v, j)) <==> before[0].inoFreelistStart != 0
    ensures FreeBlocksOk(after, Returned(v, j))
  {
    var v', n := Returned(v, j), |v.spare|;
    var link := Neg(Below(v.spare, n));
    assert SpareAt(v.entries, v.spare, n - 1);
    FreeFrame(before, after, v, v');
    if before[0].inoFreelistStart == 0 {
      assert v'.spare[n] == j && v'.entries[j] == 0;
      assert !SignAt(v'.entries, v'.spare, v'.held, j);
    } else {
      forall i ensures EntryAt(after, v'.entries, i) {
        assert EntryAt(before, v.entries, i) && EntryAt(before, v.entries, j);
        EntryStored(before, after, v.entries, j, link, i);
      }
      forall i ensures SpareAt(v'.entries, v'.spare, i) {
        assert SpareAt(v.entries, v.spare, i);
      }
      forall i, k ensures Apart(v'.spare, i, k) {
        assert Apart(v.spare, i, k);
      }
      forall i ensures SignAt(v'.entries, v'.spare, v'.held, i) {
        assert SignAt(v.entries, v.spare, v.held, i);
        assert i in v'.spare <==> i in v.spare || i == j;
      }
    }
  }

  lemma {:induction false} TakenOk(before: Image, after: Image, v: View, v': View)
    requires Mounted(before, v) && |v.spare| > 0
    requires var top := |v.spare| - 1; var j := v.spare[top];
      && v' == v.(spare := v.spare[..top], held := v.held + {j})
      && 0 <= j < |v.entries|
      && after == before[0 := before[0].(inoFreelistStart := Neg(v.entries[j]), freeInodes := before[0].freeInodes - 1)]
    ensures Mounted(after, v')
  {
    var top := |v.spare| - 1;
    FreeFrame(before, after, v, v');
    assert SpareAt(v.entries, v.spare, top);
    forall i ensures EntryAt(after, v'.entries, i) {
      assert EntryAt(before, v.entries, i);
    }
    forall i ensures SpareAt(v'.entries, v'.spare, i) {
      assert SpareAt(v.entries, v.spare, i);
    }
    forall i, k ensures Apart(v'.spare, i, k) {
      assert Apart(v.spare, i, k);
    }
    forall i ensures SignAt(v'.entries, v'.spare, v'.held, i) {
      assert SignAt(v.entries, v.spare, v.held, i);
      assert v.spare == v'.spare + [v.spare[top]];
      if i in v'.spare {
        var k :| 0 <= k < |v'.spare| && v'.spare[k] == i;
        assert Apart(v.spare, k, top);
      }
    }
    assert SpareAt(v.entries, v.spare, top - 1);
  }

  // ----- a new file system -----

  /** The first block listed after `i` of a run that ends at `n`, or the end marker. */
  function UpTo(x: int, n: int): int {
    if x >= n then EOF else x
  }

  /** The `m` blocks from `from` on, as far as there are any. */
  function Run(from: int, n: int, m: nat): seq<int> {
    seq(m, j => UpTo(from + j, n))
  }

  function NewFreelistBlock(i: int, n: int): Block {
    FreelistBlock(UpTo(i + N, n), Run(i + 1, n, N - 1))
  }

  function NewIlistBlock(i: nat, ilistSize: nat): Block {
    IlistBlock(seq(N, j => if i == ilistSize - 1 && j == N - 1 then EOF else -(j + N * i + 1)))
  }

  /** Every `N`th block from `from` on, the last first. */
  ghost function NewChain(from: int, n: int): seq<int>
    decreases n - from
  {
    if from >= n then [] else NewChain(from + N, n) + [from]
  }

  ghost function Interval(lo: int, n: int): (s: set<int>)
    requires lo <= n
    ensures forall x :: x in s <==> lo <= x < n
    ensures |s| == n - lo
    decreases n - lo
  {
    if lo == n then {} else Interval(lo, n - 1) + {n - 1}
  }

  ghost function NewView(lo: int, n: int, count: nat): View
    requires lo <= n
  {
    View(NewChain(lo, n), Interval(lo, n), seq(count, q => if q == count - 1 then EOF else -(q + 1)),
         seq(count, k requires 0 <= k < count => count - 1 - k), {})
  }

  lemma {:induction false} RunListed(from: int, n: int, m: nat, x: int)
    requires x != EOF && from > 0
    ensures Listed(Run(from, n, m), x) == if from <= x < from + m && x < n then 1 else 0
  {
    var s := Run(from, n, m);
    if m > 0 {
      RunListed(from, n, m - 1, x);
      assert s[..|s| - 1] == Run(from, n, m - 1);
      assert s[|s| - 1] == UpTo(from + (m - 1), n);
    }
  }

  lemma {:induction false} NewChainMember(from: int, n: int, p: int)
    requires p in NewChain(from, n)
    ensures from <= p < n
    decreases n - from
  {
    if p != from {
      NewChainMember(from + N, n, p);
    }
  }

  /** The new list holds each block of the run once. */
  lemma {:induction false} NewCollected(img: Image, from: int, x: int)
    requires x != EOF && from > 0
    requires forall p :: p in NewChain(from, |img|) ==> 0 <= p < |img| && img[p] == NewFreelistBlock(p, |img|)
    ensures Collected(img, NewChain(from, |img|), |NewChain(from, |img|)|, x) == if from <= x < |img| then 1 else 0
    decreases |img| - from
  {
    var n := |img|;
    if from < n {
      var rest, chain := NewChain(from + N, n), NewChain(from, n);
      assert chain[|chain| - 1] in chain;
      forall p | p in rest ensures 0 <= p < n && img[p] == NewFreelistBlock(p, n) {
        assert p in chain;
      }
      NewCollected(img, from + N, x);
      CollectedFrame(img, img, rest, chain, |rest|, x);
      RunListed(from + 1, n, N - 1, x);
    }
  }

  lemma {:induction false} NewNodes(img: Image, from: int, i: int)
    requires from > 0
    requires forall p :: p in NewChain(from, |img|) ==> 0 <= p < |img| && img[p] == NewFreelistBlock(p, |img|)
    ensures NodeOk(img, NewChain(from, |img|), i)
    ensures Below(NewChain(from, |img|), |NewChain(from, |img|)|) == UpTo(from, |img|)
    decreases |img| - from
  {
    var n := |img|;
    if from < n {
      var rest, chain := NewChain(from + N, n), NewChain(from, n);
      assert chain[|chain| - 1] in chain;
      forall p | p in rest ensures 0 <= p < n && img[p] == NewFreelistBlock(p, n) {
        assert p in chain;
      }
      NewNodes(img, from + N, i);
      assert 0 <= i < |rest| ==> Below(chain, i) == Below(rest, i);
      assert i == |rest| ==> Below(chain, i) == Below(rest, i);
    }
  }

  ghost predicate NewImage(img: Image, ilistSize: nat, lo: int) {
    && lo == ilistSize + 1
    && 1 <= ilistSize && ilistSize + 1 < |img|
    && img[0] == Super(ilistSize, lo, 0, |img| - lo, ilistSize * N)
    && (forall q :: 1 <= q <= ilistSize ==> img[q] == NewIlistBlock(q - 1, ilistSize))
    && (forall p :: p in NewChain(lo, |img|) ==> 0 <= p < |img| && img[p] == NewFreelistBlock(p, |img|))
  }

  lemma {:induction false} NewFreeBlocks(img: Image, ilistSize: nat, lo: int)
    requires NewImage(img, ilistSize, lo)
    ensures FreeBlocksOk(img, NewView(lo, |img|, ilistSize * N))
  {
    var v := NewView(lo, |img|, ilistSize * N);
    forall i ensures NodeOk(img, v.chain, i) {
      NewNodes(img, lo, i);
    }
    NewNodes(img, lo, 0);
    forall x ensures FreeAt(img, v.chain, v.free, x) {
      if x != EOF {
        NewCollected(img, lo, x);
      }
    }
  }

  lemma {:induction false} NewEntry(img: Image, ilistSize: nat, lo: int, entries: seq<int>, j: int)
    requires NewImage(img, ilistSize, lo)
    requires entries == NewView(lo, |img|, ilistSize * N).entries
    ensures EntryAt(img, entries, j)
  {
    if 0 <= j < |entries| {
      QuotientBelow(j, N, ilistSize);
      Divide(j, N);
      Succ(ilistSize - 1, N);
      if j / N < ilistSize - 1 {
        MulMono(j / N + 1, ilistSize - 1, N);
        Succ(j / N, N);
      }
    }
  }

  lemma {:induction false} NewInodes(img: Image, ilistSize: nat, lo: int)
    requires NewImage(img, ilistSize, lo) && ilistSize * N < -EOF
    ensures InodesOk(img, NewView(lo, |img|, ilistSize * N))
  {
    var v := NewView(lo, |img|, ilistSize * N);
    MulMono(1, ilistSize, N);
    forall j ensures EntryAt(img, v.entries, j) {
      NewEntry(img, ilistSize, lo, v.entries, j);
    }
    forall j ensures SignAt(v.entries, v.spare, v.held, j) {
      if 0 <= j < |v.entries| {
        assert v.spare[|v.entries| - 1 - j] == j;
      }
    }
  }

  // ----- the disk -----

  /** Only free-list blocks and the superblock's free-block fields have changed. */
  ghost predicate ListOnly(before: Image, after: Image, free: set<int>) {
    && |before| == |after| && 0 < |before| && SuperKept(before[0], after[0])
    && forall x {:trigger after[x]} {:trigger before[x]} :: 0 < x < |before| && x !in free ==> after[x] == before[x]
  }

  class Disk {
    const data: array<Block>
    ghost var view: View

    constructor (data: array<Block>)
      ensures this.data == data
    {
      this.data := data;
    }

    ghost function Image(): (img: Image)
      reads data
      ensures |img| == data.Length
    {
      data[..]
    }

    ghost predicate Valid()
      reads this, data
    {
      Mounted(Image(), view)
    }

    method Read(x: int) returns (b: Block)
      requires 0 <= x < data.Length
      ensures b == Image()[x]
    {
      b := data[x];
    }

    method Write(x: int, b: Block)
      requires 0 <= x < data.Length
      modifies data
      ensures Image() == old(Image())[x := b]
    {
      data[x] := b;
    }

    method WriteOwned(x: int, b: Block)
      requires Valid() && DataStart(Image()) <= x < data.Length && x !in view.free
      modifies data
      ensures Valid() && Image() == old(Image())[x := b]
    {
      Write(x, b);
      OwnWrite(old(Image()), Image(), view, x);
    }

    method WriteBoth(super: Block, x: int, b: Block)
      requires 0 < x < data.Length
      modifies data
      ensures Rewrote(old(Image()), Image(), super, x, b)
    {
      Write(0, super);
      Write(x, b);
    }

    /** Takes entry `i` out of the head of the list. */
    method TakeEntry(super: Block, head: int, list: Block, i: nat)
      requires Valid() && super == Image()[0] && HeadIs(Image(), view, head, list)
      requires i < N - 1 && list.blocks[i] != EOF
      modifies this`view, data
      ensures Valid() && list.blocks[i] in old(view.free)
      ensures view == old(view).(free := old(view.free) - {list.blocks[i]})
      ensures ListOnly(old(Image()), Image(), {head})
    {
      ghost var before, v := Image(), view;
      ghost var block := list.blocks[i];
      assert FreeAt(before, v.chain, v.free, block);
      ListedUpdate(list.blocks, i, EOF, block);
      view := v.(free := v.free - {block});
      WriteBoth(super.(freeBlocks := super.freeBlocks - 1), head, list.(blocks := list.blocks[i := EOF]));
      HeadEntry(before, Image(), v, view, head, list, i, EOF);
      NodeFree(before, v, |v.chain| - 1);
      InodesFrame(before, Image(), v, view);
    }

    /** Takes one block off the free list; fails exactly when the list is empty. */
    method BlockAllocate() returns (r: int)
      requires Valid()
      modifies this`view, data
      ensures Valid()
      ensures r == EOF <==> old(view.free) == {}
      ensures r == EOF ==> Image() == old(Image()) && view == old(view)
      ensures r != EOF ==> r in old(view.free) && DataStart(Image()) <= r < data.Length
      ensures r != EOF ==> view == old(view).(chain := view.chain, free := old(view.free) - {r})
      ensures ListOnly(old(Image()), Image(), old(view.free))
    {
      ghost var before, v, top := Image(), view, |view.chain| - 1;
      var super := Read(0);
      if super.freelistStart == EOF {
        forall x ensures x !in v.free {
          assert FreeAt(before, v.chain, v.free, x);
          assert NodeOk(before, v.chain, top);
        }
        return EOF;
      }
      var head := super.freelistStart;
      NodeFree(before, v, top);
      var list := Read(head);
      for i := 0 to N - 1
        invariant Image() == before && view == v
        invariant forall j :: 0 <= j < i ==> list.blocks[j] == EOF
      {
        var candidate := list.blocks[i];
        if candidate != EOF {
          assert FreeAt(before, v.chain, v.free, candidate);
          TakeEntry(super, head, list, i);
          return candidate;
        }
      }
      Write(0, super.(freelistStart := list.next, freeBlocks := super.freeBlocks - 1));
      view := v.(chain := v.chain[..top], free := v.free - {head});
      HeadOff(before, Image(), v, view, head, list);
      InodesFrame(before, Image(), v, view);
      return head;
    }

    /** Lists `block` in entry `i` of the head of the list. */
    method GiveEntry(super: Block, head: int, list: Block, i: nat, block: int)
      requires FreeBlocksOk(Image(), view) && super == Image()[0] && HeadIs(Image(), view, head, list)
      requires i < N - 1 && list.blocks[i] == EOF
      requires DataStart(Image()) <= block < data.Length && block !in view.free
      modifies this`view, data
      ensures FreeBlocksOk(Image(), view) && (InodesOk(Image(), view) <==> old(InodesOk(Image(), view)))
      ensures view == old(view).(free := old(view.free) + {block})
      ensures ListOnly(old(Image()), Image(), {head})
    {
      ghost var before, v := Image(), view;
      view := v.(free := v.free + {block});
      WriteBoth(super.(freeBlocks := super.freeBlocks + 1), head, list.(blocks := list.blocks[i := block]));
      HeadEntry(before, Image(), v, view, head, list, i, block);
      NodeFree(before, v, |v.chain| - 1);
      InodesSame(before, Image(), v, view);
    }

    /** Gives a block back, whatever the state of the inode lists. Its contents may be overwritten
        to make it a list block. */
    method BlockFree(block: int)
      requires FreeBlocksOk(Image(), view) && DataStart(Image()) <= block < data.Length && block !in view.free
      modifies this`view, data
      ensures FreeBlocksOk(Image(), view) && (InodesOk(Image(), view) <==> old(InodesOk(Image(), view)))
      ensures view == old(view).(chain := view.chain, free := old(view.free) + {block})
      ensures ListOnly(old(Image()), Image(), view.free)
    {
      ghost var before, v, top := Image(), view, |view.chain| - 1;
      var super := Read(0);
      if super.freelistStart != EOF {
        var head := super.freelistStart;
        NodeFree(before, v, top);
        var list := Read(head);
        for i := N - 1 downto 0
          invariant Image() == before && view == v
        {
          if list.blocks[i] == EOF {
            GiveEntry(super, head, list, i, block);
            return;
          }
        }
      }
      var vagabond := FreelistBlock(super.freelistStart, seq(N - 1, _ => EOF));
      WriteBoth(super.(freelistStart := block, freeBlocks := super.freeBlocks + 1), block, vagabond);
      view := v.(chain := v.chain + [block], free := v.free + {block});
      HeadOn(before, Image(), v, view, block, vagabond);
      InodesSame(before, Image(), v, view);
    }

    /** The block of an inode number, or a negative link if it has none. */
    method InoGet(j: nat) returns (block: int)
      requires Valid() && j < |view.entries|
      ensures block == view.entries[j]
    {
      assert EntryAt(Image(), view.entries, j);
      var table := Read(1 + j / N);
      return table.entries[j % N];
    }

    method InoSet(j: nat, value: int)
      requires Valid() && j < |view.entries|
      modifies data
      ensures |Image()| == |old(Image())| && Image()[0] == old(Image())[0]
      ensures 1 <= 1 + j / N < DataStart(old(Image())) <= |Image()|
      ensures old(Image())[1 + j / N].IlistBlock? && |old(Image())[1 + j / N].entries| == N
      ensures Image()[1 + j / N] == IlistBlock(old(Image())[1 + j / N].entries[j % N := value])
      ensures forall x :: 0 < x < |Image()| && x != 1 + j / N ==> Image()[x] == old(Image())[x]
    {
      assert EntryAt(Image(), view.entries, j);
      var table := Read(1 + j / N);
      Write(1 + j / N, IlistBlock(table.entries[j % N := value]));
    }

    /** Gives a number just taken its block. */
    method InoGive(j: nat, block: int)
      requires Valid() && j in view.held && block >= 0
      modifies this`view, data
      ensures Valid() && j < |old(view).entries| && view == Given(old(view), j, block)
      ensures |Image()| == |old(Image())| && Image()[0] == old(Image())[0]
      ensures forall x :: DataStart(old(Image())) <= x < |Image()| ==> Image()[x] == old(Image())[x]
    {
      ghost var before, v := Image(), view;
      assert SignAt(v.entries, v.spare, v.held, j);
      InoSet(j, block);
      view := Given(v, j, block);
      GivenOk(before, Image(), v, j, block);
    }

    /** Takes the first number off the free list; fails exactly when there is none. */
    method InoAllocate() returns (r: int)
      requires Valid()
      modifies this`view, data
      ensures Valid()
      ensures r == EOF <==> old(view.spare) == []
      ensures r == EOF ==> Image() == old(Image()) && view == old(view)
      ensures r != EOF ==>
        |old(view.spare)| > 0 && r == old(view.spare)[|old(view.spare)| - 1] && 0 <= r < |view.entries|
      ensures r != EOF ==> view == old(view).(spare := old(view.spare)[..|old(view.spare)| - 1],
                                              held := old(view.held) + {r})
      ensures |Image()| == |old(Image())| && DataStart(Image()) == DataStart(old(Image()))
      ensures forall x :: 0 < x < |Image()| ==> Image()[x] == old(Image())[x]
    {
      ghost var before, v := Image(), view;
      assert SpareAt(v.entries, v.spare, |v.spare| - 1);
      var super := Read(0);
      r := super.inoFreelistStart;
      if r != EOF {
        var link := InoGet(r);
        Write(0, super.(inoFreelistStart := Neg(link), freeInodes := super.freeInodes - 1));
        view := v.(spare := v.spare[..|v.spare| - 1], held := v.held + {r});
        TakenOk(before, Image(), v, view);
      }
    }

    /** Puts a number back. This keeps the list exactly if inode 0 is not its head. */
    method InoFree(j: nat)
      requires Valid() && j < |view.entries| && j !in view.spare
      modifies this`view, data
      ensures InodesOk(Image(), view) <==> old(Below(view.spare, |view.spare|)) != 0
      ensures FreeBlocksOk(Image(), view)
      ensures view == Returned(old(view), j)
      ensures |Image()| == |old(Image())| && DataStart(Image()) == DataStart(old(Image()))
      ensures forall x :: DataStart(Image()) <= x < |Image()| ==> Image()[x] == old(Image())[x]
    {
      ghost var before, v := Image(), view;
      var super := Read(0);
      InoSet(j, Neg(super.inoFreelistStart));
      Write(0, super.(inoFreelistStart := j, freeInodes := super.freeInodes + 1));
      view := Returned(v, j);
      ReturnedExactCondition(before, Image(), v, j);
    }

    /** Formats the disk: every data-area block and every inode number is free. */
    method MkfsStorage(ilistSize: nat)
      requires 1 <= ilistSize && ilistSize + 1 < data.Length && ilistSize * N < -EOF
      modifies this`view, data
      ensures Valid() && DataStart(Image()) == ilistSize + 1
      ensures view == NewView(ilistSize + 1, data.Length, ilistSize * N)
    {
      var first, n := ilistSize + 1, data.Length;
      var super := Super(ilistSize, first, 0, n - first, ilistSize * N);
      Write(0, super);
      for i := 0 to ilistSize
        invariant Image()[0] == super
        invariant forall q :: 1 <= q <= i ==> Image()[q] == NewIlistBlock(q - 1, ilistSize)
      {
        Write(i + 1, NewIlistBlock(i, ilistSize));
      }
      var i := first;
      ghost var done: seq<int> := [];
      while i < n
        invariant first <= i && NewChain(first, n) == NewChain(i, n) + done
        invariant Image()[0] == super
        invariant forall q :: 1 <= q <= ilistSize ==> Image()[q] == NewIlistBlock(q - 1, ilistSize)
        invariant forall p :: p in done ==> 0 <= p < i && p < n && Image()[p] == NewFreelistBlock(p, n)
        decreases n - i
      {
        Write(i, NewFreelistBlock(i, n));
        assert NewChain(i, n) + done == NewChain(i + N, n) + ([i] + done);
        done := [i] + done;
        i := i + N;
      }
      assert NewChain(first, n) == done;
      view := NewView(first, n, ilistSize * N);
      NewFreeBlocks(Image(), ilistSize, first);
      NewInodes(Image(), ilistSize, first);
    }
  }
}
