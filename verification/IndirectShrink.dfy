// inode_indirect_shrink: freeing data blocks below one pointer.

module IndirectShrink {
  import opened Geometry
  import opened Blocks
  import opened Trees
  import opened FreeLists
  import opened IndirectGrow

  /** The tree has been cut back to `m` data blocks, and the rest of its blocks are free. */
  ghost predicate Cut(before: Image, free: set<int>, p: int, after: Image, free': set<int>, p': int, level: nat,
                      m: int) {
    forall u :: Look(u) ==>
      var t, t' := TreeOf(before, p, level), TreeOf(after, p', level);
      && t' == Prune(t, level, m)
      && Conserves(free, t, free', t')
      && KeptLeaves(before, after, t', level, m)
  }

  /** What a call may assume: the pointer holds the first `n` data blocks of its span, more than
      the `m` that are to stay, and all its blocks are its own. */
  ghost predicate MayShrink(img: Image, v: View, dest: int, level: nat, n: int, m: int) {
    && Mounted(img, v) && 0 <= m < n <= IndirectCount(level)
    && Shape(TreeOf(img, dest, level), level, n)
    && Clean(v.free, TreeOf(img, dest, level), DataStart(img), |img|)
  }

  ghost predicate ShrinkResult(before: Image, v: View, dest: int, after: Image, v': View, dest': int, level: nat,
                               n: int, m: int, freed: int) {
    && Mounted(after, v') && v' == v.(chain := v'.chain, free := v'.free)
    && |after| == |before| && DataStart(after) == DataStart(before)
    && SameBut(before, after, v.free, dest, level)
    && freed == n - m
    && Cut(before, v.free, dest, after, v'.free, dest', level, m)
  }

  /** A child of the block, cut back to `c` data blocks. */
  ghost predicate ChildCut(before: Image, img: Image, was: Tree, t: Tree, level: nat, c: int) {
    t == Prune(was, level, c) && KeptLeaves(before, img, t, level, c)
  }

  /** How much of child `j` is left when the loop has reached child `i`. */
  ghost function Left(n: int, m: int, level: nat, i: int, j: int): int
    requires level > 0
  {
    if j < i then Share(m, level, j) else Share(n, level, j)
  }

  /** The children `was` of block `b` are being cut from `n` to `m` positions, up to child `i`. */
  ghost predicate Shrinking(before: Image, free0: set<int>, t0: Tree, b: int, was: seq<Tree>, img: Image,
                            free: set<int>, ptrs: seq<int>, level: nat, n: int, m: int, i: int)
    requires level > 0
  {
    && |ptrs| == |was| == N
    && forall u :: Look(u) ==>
    var ts := Forest(img, ptrs, level - 1);
    && (forall j :: 0 <= j < N ==> Shape(was[j], level - 1, Share(n, level, j)))
    && (forall j :: 0 <= j < N ==> ChildCut(before, img, was[j], ts[j], level - 1, Left(n, m, level, i, j)))
    && Conserves(free0, t0, free, Node(b, ts))
    && Same(before, img, free0, t0)
  }

  /** A data block that is freed. */
  lemma {:induction false} LeafFreed(before: Image, v: View, dest: int, n: int, m: int, after: Image, v': View)
    requires MayShrink(before, v, dest, 0, n, m)
    requires Mounted(after, v') && v' == v.(chain := v'.chain, free := v.free + {dest})
    requires ListOnly(before, after, v'.free)
    ensures ShrinkResult(before, v, dest, after, v', EOF, 0, n, m, 1)
  {
    assert Look(0);
    assert Sole(v.free, Leaf(dest), DataStart(before), |before|, dest);
    forall x ensures Conserved(v.free, Leaf(dest), v'.free, Nil, x) {
    }
  }

  lemma {:induction false} StartShrink(img: Image, free: set<int>, p: int, level: nat, n: int, m: int, target: int,
                                       first: int, last: int)
    requires Span(level, m, target, first, last) && n == target && Shape(TreeOf(img, p, level), level, n)
    ensures img[p].Indirect? && |img[p].ptrs| == N
    ensures TreeOf(img, p, level) == Node(p, Forest(img, img[p].ptrs, level - 1))
    ensures Shrinking(img, free, TreeOf(img, p, level), p, Forest(img, img[p].ptrs, level - 1), img, free, img[p].ptrs,
                      level, n, m, first)
  {
    assert Look(0);
    var t := TreeOf(img, p, level);
    var ts := Forest(img, img[p].ptrs, level - 1);
    assert t == Node(p, t.kids) && ts == t.kids;
    forall j | 0 <= j < N ensures ChildCut(img, img, ts[j], ts[j], level - 1, Left(n, m, level, first, j)) {
      if j < first {
        StartMono(level, j, first);
      }
      PruneId(ts[j], level - 1, Share(n, level, j));
      KeptSame(img, ts[j], level - 1, Left(n, m, level, first, j));
    }
    forall x ensures Conserved(free, t, free, Node(p, ts), x) {
    }
  }

  lemma {:induction false} OtherCut(before: Image, img: Image, was: Tree, free: set<int>, ts: seq<Tree>, lo: int,
                                    i: nat, img': Image, j: nat, level: nat, n: int, c: int)
    requires i < |ts| && j < |ts| && i != j && lo > 0
    requires forall x :: In(free, x) + CountAll(ts, x) <= 1
    requires forall x :: CountAll(ts, x) > 0 ==> lo <= x
    requires Same(img, img', free, ts[i])
    requires Shape(was, level, n) && 0 <= c <= n <= IndirectCount(level)
    requires ChildCut(before, img, was, ts[j], level, c)
    ensures ChildCut(before, img', was, ts[j], level, c)
  {
    PruneShape(was, level, n, c);
    forall k | 0 <= k < c ensures KeptLeaf(before, img', LeafAt(ts[j], level, k)) {
      LeafAtMember(ts[j], level, c, k);
      CountPair(ts, i, j, LeafAt(ts[j], level, k));
      assert KeptLeaf(before, img, LeafAt(ts[j], level, k));
    }
  }

  /** The child just cut. */
  lemma {:induction false} ThisCut(before: Image, img: Image, free: set<int>, p: int, img': Image, free': set<int>,
                                   p': int, was: Tree, level: nat, n: int, m: int)
    requires Cut(img, free, p, img', free', p', level, m)
    requires ChildCut(before, img, was, TreeOf(img, p, level), level, n)
    requires Shape(was, level, n) && 0 <= m <= n <= IndirectCount(level)
    ensures ChildCut(before, img', was, TreeOf(img', p', level), level, m)
  {
    assert Look(0);
    PruneId(was, level, n);
    forall k | 0 <= k < m ensures KeptLeaf(before, img', LeafAt(TreeOf(img', p', level), level, k)) {
      LeafAtPrune(was, level, n, m, k);
      assert KeptLeaf(before, img, LeafAt(was, level, k));
      assert KeptLeaf(img, img', LeafAt(TreeOf(img', p', level), level, k));
    }
  }

  lemma {:induction false} CutChildren(before: Image, was: seq<Tree>, img: Image, free: set<int>, ptrs: seq<int>,
                                       ts: seq<Tree>, lo: int, level: nat, n: int, m: int, i: nat, img': Image,
                                       free': set<int>, p': int)
    requires level > 0 && |ts| == |was| == |ptrs| == N && i < N && lo > 0 && ts[i] == TreeOf(img, ptrs[i], level - 1)
    requires 0 <= m <= n
    requires forall j :: 0 <= j < N ==> Shape(was[j], level - 1, Share(n, level, j))
    requires forall j :: 0 <= j < N ==> ChildCut(before, img, was[j], ts[j], level - 1, Left(n, m, level, i, j))
    requires forall x :: In(free, x) + CountAll(ts, x) <= 1
    requires forall x :: CountAll(ts, x) > 0 ==> lo <= x
    requires Same(img, img', free, ts[i])
    requires Cut(img, free, ptrs[i], img', free', p', level - 1, Share(m, level, i))
    ensures forall j :: 0 <= j < N ==>
      ChildCut(before, img', was[j], ts[i := TreeOf(img', p', level - 1)][j], level - 1, Left(n, m, level, i + 1, j))
  {
    forall j | 0 <= j < N
      ensures ChildCut(before, img', was[j], ts[i := TreeOf(img', p', level - 1)][j], level - 1,
                       Left(n, m, level, i + 1, j))
    {
      assert ChildCut(before, img, was[j], ts[j], level - 1, Left(n, m, level, i, j));
      if j != i {
        OtherCut(before, img, was[j], free, ts, lo, i, img', j, level - 1, Share(n, level, j), Left(n, m, level, i, j));
      } else {
        ThisCut(before, img, free, ptrs[i], img', free', p', was[i], level - 1, Share(n, level, i), Share(m, level, i));
      }
    }
  }

  lemma {:induction false} ShrinkStep(before: Image, free0: set<int>, t0: Tree, b: int, was: seq<Tree>, img: Image,
                                      free: set<int>, ptrs: seq<int>, level: nat, n: int, m: int, i: nat, img': Image,
                                      free': set<int>, p': int)
    requires level > 0 && i < N && |before| > 0 && 0 <= m <= n
    requires Shrinking(before, free0, t0, b, was, img, free, ptrs, level, n, m, i)
    requires Clean(free0, t0, DataStart(before), |before|)
    requires Cut(img, free, ptrs[i], img', free', p', level - 1, Share(m, level, i))
    requires SameBut(img, img', free, ptrs[i], level - 1)
    ensures Shrinking(before, free0, t0, b, was, img', free', ptrs[i := p'], level, n, m, i + 1)
  {
    assert Look(0);
    var ts := Forest(img, ptrs, level - 1);
    var lo := DataStart(before);
    ChildClean(free0, t0, lo, |before|, free, b, ts, i);
    ForestFrame(img, img', ptrs, level - 1, free, lo, i, p');
    ChildStep(before, free0, t0, lo, b, img, free, ts, i, img', free', TreeOf(img', p', level - 1));
    CutChildren(before, was, img, free, ptrs, ts, lo, level, n, m, i, img', free', p');
  }

  lemma {:induction false} ShrinkReady(before: Image, free0: set<int>, t0: Tree, b: int, was: seq<Tree>, img: Image,
                                       v: View, ptrs: seq<int>, level: nat, n: int, m: int, first: int, last: int,
                                       i: nat, c: int)
    requires Span(level, m, n, first, last) && Counting(level, m, n, first, last, i, c, true) && i <= last
    requires Shrinking(before, free0, t0, b, was, img, v.free, ptrs, level, n, m, i)
    requires Mounted(img, v) && DataStart(img) == DataStart(before) && |img| == |before|
    requires Clean(free0, t0, DataStart(before), |before|)
    ensures MayShrink(img, v, ptrs[i], level - 1, Share(n, level, i), Share(m, level, i))
    ensures Share(m, level, i) == Share(c, level, i)
  {
    assert Look(0);
    var ts := Forest(img, ptrs, level - 1);
    CountingHere(level, m, n, first, last, i, c);
    ChildClean(free0, t0, DataStart(before), |before|, v.free, b, ts, i);
    assert ChildCut(before, img, was[i], ts[i], level - 1, Left(n, m, level, i, i));
    PruneId(was[i], level - 1, Share(n, level, i));
  }

  /** When the loop is over, the pointers are all missing exactly if no data is to stay. */
  lemma {:induction false} AllMissing(before: Image, free0: set<int>, t0: Tree, b: int, was: seq<Tree>, img: Image,
                                      free: set<int>, ptrs: seq<int>, level: nat, n: int, m: int, first: int, last: int)
    requires Span(level, m, n, first, last)
    requires Shrinking(before, free0, t0, b, was, img, free, ptrs, level, n, m, last + 1)
    ensures (forall j :: 0 <= j < N ==> ptrs[j] == EOF) <==> m == 0
  {
    assert Look(0);
    var ts := Forest(img, ptrs, level - 1);
    forall j | 0 <= j < N ensures ptrs[j] == EOF <==> Share(m, level, j) == 0 {
      assert ChildCut(before, img, was[j], ts[j], level - 1, Left(n, m, level, last + 1, j));
      if j > last {
        StartMono(level, last + 1, j);
      }
      PruneShape(was[j], level - 1, Share(n, level, j), Left(n, m, level, last + 1, j));
      assert ts[j] == TreeOf(img, ptrs[j], level - 1);
    }
    if m > 0 {
      assert Share(m, level, 0) > 0;
      assert ptrs[0] != EOF;
    }
  }

  /** What is left of the tree after the loop. */
  lemma {:induction false} LeftOver(before: Image, p: int, was: seq<Tree>, img: Image, ts: seq<Tree>, level: nat,
                                    n: int, m: int, first: int, last: int)
    requires Span(level, m, n, first, last) && |was| == |ts| == N
    requires forall j :: 0 <= j < N ==> Shape(was[j], level - 1, Share(n, level, j))
    requires forall j :: 0 <= j < N ==> ChildCut(before, img, was[j], ts[j], level - 1, Left(n, m, level, last + 1, j))
    ensures m > 0 ==> Prune(Node(p, was), level, m) == Node(p, ts)
    ensures forall j :: 0 <= j < N ==> ChildCut(before, img, was[j], ts[j], level - 1, Share(m, level, j))
    ensures m == 0 ==> forall j :: 0 <= j < N ==> ts[j] == Nil
  {
    forall j | 0 <= j < N ensures ChildCut(before, img, was[j], ts[j], level - 1, Share(m, level, j)) {
      assert ChildCut(before, img, was[j], ts[j], level - 1, Left(n, m, level, last + 1, j));
      if j > last {
        StartMono(level, last + 1, j);
      }
    }
    forall j | 0 <= j < N ensures ts[j] == Prune(was[j], level - 1, Share(m, level, j)) {
      assert ChildCut(before, img, was[j], ts[j], level - 1, Share(m, level, j));
    }
    if m > 0 {
      assert Prune(Node(p, was), level, m).kids == ts;
    }
  }

  lemma {:induction false} EndFreed(before: Image, free0: set<int>, p: int, was: seq<Tree>, img: Image, free: set<int>,
                                    ptrs: seq<int>, level: nat, n: int, m: int, first: int, last: int, img': Image)
    requires Span(level, m, n, first, last) && m == 0 && p !in free
    requires TreeOf(before, p, level) == Node(p, was)
    requires Shrinking(before, free0, Node(p, was), p, was, img, free, ptrs, level, n, m, last + 1)
    requires ListOnly(img, img', free + {p})
    ensures Cut(before, free0, p, img', free + {p}, EOF, level, m)
    ensures SameBut(before, img', free0, p, level)
  {
    assert Look(0);
    var t0, ts := Node(p, was), Forest(img, ptrs, level - 1);
    LeftOver(before, p, was, img, ts, level, n, m, first, last);
    forall x ensures Conserved(free0, t0, free + {p}, Nil, x) {
      assert Conserved(free0, t0, free, Node(p, ts), x);
      NilForest(ts, x);
    }
    forall x | 0 < x < |before| && x !in free0 && Count(t0, x) == 0 ensures img'[x] == before[x] {
      assert Conserved(free0, t0, free + {p}, Nil, x);
    }
  }

  /** The data that stays is not disturbed by writing the indirect block back. */
  lemma {:induction false} WrittenLeaf(before: Image, img: Image, was: seq<Tree>, ts: seq<Tree>, p: int, level: nat,
                                       n: int, m: int, img': Image, k: int)
    requires level > 0 && |was| == |ts| == N && 0 <= k < m <= n <= IndirectCount(level) && |before| == |img| == |img'|
    requires forall j :: 0 <= j < N ==> Shape(was[j], level - 1, Share(n, level, j))
    requires forall j :: 0 <= j < N ==> ChildCut(before, img, was[j], ts[j], level - 1, Share(m, level, j))
    requires CountAll(ts, p) == 0 && forall y :: 0 <= y < |img| && y != p ==> img'[y] == img[y]
    ensures KeptLeaf(before, img', LeafAt(Node(p, ts), level, k))
  {
    var j, r := ChildOf(level, k), Rest(level, k);
    var x := LeafAt(ts[j], level - 1, r);
    ShareHolds(m, level, k);
    assert ChildCut(before, img, was[j], ts[j], level - 1, Share(m, level, j));
    PruneShape(was[j], level - 1, Share(n, level, j), Share(m, level, j));
    LeafAtMember(ts[j], level - 1, Share(m, level, j), r);
    CountMember(ts, j, x);
    assert KeptLeaf(before, img, x);
  }

  lemma {:induction false} EndWritten(before: Image, free0: set<int>, p: int, was: seq<Tree>, img: Image,
                                      free: set<int>, ptrs: seq<int>, level: nat, n: int, m: int, first: int, last: int,
                                      img': Image)
    requires Span(level, m, n, first, last) && 0 < m && |before| > 0
    requires TreeOf(before, p, level) == Node(p, was)
    requires Clean(free0, Node(p, was), DataStart(before), |before|)
    requires Shrinking(before, free0, Node(p, was), p, was, img, free, ptrs, level, n, m, last + 1)
    requires 0 <= p < |img| && img' == img[p := Indirect(ptrs)]
    ensures Cut(before, free0, p, img', free, p, level, m)
    ensures SameBut(before, img', free0, p, level)
  {
    assert Look(0);
    var t0, ts := Node(p, was), Forest(img, ptrs, level - 1);
    ChildClean(free0, t0, DataStart(before), |before|, free, p, ts, 0);
    LeftOver(before, p, was, img, ts, level, n, m, first, last);
    NodeWritten(img, img', p, ptrs, level);
    forall k | 0 <= k < m ensures KeptLeaf(before, img', LeafAt(Node(p, ts), level, k)) {
      WrittenLeaf(before, img, was, ts, p, level, n, m, img', k);
    }
    assert Conserved(free0, t0, free, Node(p, ts), p);
  }

  // ----- the procedure -----

  /** Whether a pointer block has nothing left in it. */
  method Everything(ptrs: seq<int>) returns (everything: bool)
    ensures everything <==> forall j :: 0 <= j < |ptrs| ==> ptrs[j] == EOF
  {
    everything := true;
    var i := 0;
    while everything && i < |ptrs|
      invariant i <= |ptrs|
      invariant if everything then forall j :: 0 <= j < i ==> ptrs[j] == EOF
                else exists j :: 0 <= j < i && ptrs[j] != EOF
    {
      everything := ptrs[i] == EOF;
      i := i + 1;
    }
  }

  /** The loop over the children. */
  method ShrinkChildrenOf(d: Disk, indirectData: seq<int>, curblock: int, level: nat, oldc: int, newc: int,
                          startIdx: int, endIdx: int, ghost blockno: int, ghost n: int, ghost m: int, ghost img0: Image,
                          ghost v0: View, ghost t0: Tree, ghost was: seq<Tree>)
    returns (indirectData': seq<int>, sum: int)
    requires n == Within(oldc - curblock, IndirectCount(level)) && m == Within(newc - curblock, IndirectCount(level))
    requires 0 <= newc < oldc && Span(level, m, n, startIdx, endIdx)
    requires d.Valid() && |img0| > 0 && |d.Image()| == |img0| && DataStart(d.Image()) == DataStart(img0)
    requires d.view == v0.(chain := d.view.chain, free := d.view.free)
    requires Clean(v0.free, t0, DataStart(img0), |img0|)
    requires Shrinking(img0, v0.free, t0, blockno, was, d.Image(), d.view.free, indirectData, level, n, m, startIdx)
    modifies d`view, d.data
    decreases level, 1
    ensures d.Valid() && d.view == v0.(chain := d.view.chain, free := d.view.free)
    ensures |d.Image()| == |img0| && DataStart(d.Image()) == DataStart(img0)
    ensures sum == n - m
    ensures Shrinking(img0, v0.free, t0, blockno, was, d.Image(), d.view.free, indirectData', level, n, m, endIdx + 1)
  {
    sum := 0;
    indirectData' := indirectData;
    ghost var c := m;
    var i := startIdx;
    while i <= endIdx
      invariant c == m + sum && Counting(level, m, n, startIdx, endIdx, i, c, true)
      invariant d.Valid() && d.view == v0.(chain := d.view.chain, free := d.view.free)
      invariant |d.Image()| == |img0| && DataStart(d.Image()) == DataStart(img0)
      invariant Shrinking(img0, v0.free, t0, blockno, was, d.Image(), d.view.free, indirectData', level, n, m, i)
    {
      var child, removed, next;
      child, removed, next, c := ShrinkChildAt(d, indirectData', i, curblock, level, oldc, newc, startIdx, endIdx,
                                               blockno, n, m, img0, v0, t0, was, c);
      indirectData' := indirectData'[i := child];
      sum := sum + removed;
      i := next;
    }
  }

  method ShrinkChildAt(d: Disk, indirectData: seq<int>, i: int, curblock: int, level: nat, oldc: int, newc: int,
                       ghost startIdx: int, ghost endIdx: int, ghost blockno: int, ghost n: int, ghost m: int,
                       ghost img0: Image, ghost v0: View, ghost t0: Tree, ghost was: seq<Tree>, ghost c: int)
    returns (child: int, removed: int, next: int, ghost c': int)
    requires n == Within(oldc - curblock, IndirectCount(level)) && m == Within(newc - curblock, IndirectCount(level))
    requires 0 <= newc < oldc && Span(level, m, n, startIdx, endIdx)
    requires Counting(level, m, n, startIdx, endIdx, i, c, true) && i <= endIdx
    requires d.Valid() && |img0| > 0 && |d.Image()| == |img0| && DataStart(d.Image()) == DataStart(img0)
    requires d.view == v0.(chain := d.view.chain, free := d.view.free)
    requires Clean(v0.free, t0, DataStart(img0), |img0|)
    requires Shrinking(img0, v0.free, t0, blockno, was, d.Image(), d.view.free, indirectData, level, n, m, i)
    modifies d`view, d.data
    decreases level, 0
    ensures d.Valid() && d.view == v0.(chain := d.view.chain, free := d.view.free)
    ensures |d.Image()| == |img0| && DataStart(d.Image()) == DataStart(img0)
    ensures next == i + 1 && c' == c + removed && Counting(level, m, n, startIdx, endIdx, next, c', true)
    ensures Shrinking(img0, v0.free, t0, blockno, was, d.Image(), d.view.free, indirectData[i := child], level, n, m,
                      next)
  {
    ghost var img, v := d.Image(), d.view;
    ghost var free := v.free;
    ShrinkReady(img0, v0.free, t0, blockno, was, img, v, indirectData, level, n, m, startIdx, endIdx, i, c);
    var childBlock := ChildBlock(curblock, level, i);
    ShareWithin(oldc, curblock, childBlock, level, i, n);
    ShareWithin(newc, curblock, childBlock, level, i, m);
    CountingHere(level, m, n, startIdx, endIdx, i, c);
    child, removed := IndirectShrink(d, indirectData[i], childBlock, level - 1, oldc, newc, Share(n, level, i),
                                     Share(m, level, i));
    CountingStep(level, m, n, startIdx, endIdx, i, c, true, removed);
    ShrinkStep(img0, v0.free, t0, blockno, was, img, free, indirectData, level, n, m, i, d.Image(), d.view.free, child);
    next, c' := i + 1, c + removed;
  }

  /** Cuts the data blocks of the file below `dest` back from `oldc` to `newc`. */
  method IndirectShrink(d: Disk, dest: int, curblock: int, level: nat, oldc: int, newc: int, ghost n: int, ghost m: int)
    returns (dest': int, freed: int)
    requires 0 <= newc < oldc
    requires n == Within(oldc - curblock, IndirectCount(level)) && m == Within(newc - curblock, IndirectCount(level))
    requires MayShrink(d.Image(), d.view, dest, level, n, m)
    modifies d`view, d.data
    decreases level, 2
    ensures ShrinkResult(old(d.Image()), old(d.view), dest, d.Image(), d.view, dest', level, n, m, freed)
  {
    assert dest != EOF;
    ghost var img0, v0, t0 := d.Image(), d.view, TreeOf(d.Image(), dest, level);
    assert Sole(v0.free, t0, DataStart(img0), |img0|, dest);
    if level == 0 {
      d.BlockFree(dest);
      LeafFreed(img0, v0, dest, n, m, d.Image(), d.view);
      return EOF, 1;
    }
    var block := d.Read(dest);
    var indirectData := block.ptrs;
    var startIdx, endIdx := ChildRange(curblock, level, newc, oldc);
    ghost var was := Forest(img0, indirectData, level - 1);
    StartShrink(img0, v0.free, dest, level, n, m, n, startIdx, endIdx);
    indirectData, freed := ShrinkChildrenOf(d, indirectData, curblock, level, oldc, newc, startIdx, endIdx, dest, n, m,
                                            img0, v0, t0, was);
    ghost var img1, v1 := d.Image(), d.view;
    ghost var free1 := v1.free;
    AllMissing(img0, v0.free, t0, dest, was, img1, free1, indirectData, level, n, m, startIdx, endIdx);
    RootOwned(img0, v0.free, t0, dest, was, img1, free1, indirectData, level, n, m, endIdx + 1);
    var everything := Everything(indirectData);
    if everything {
      d.BlockFree(dest);
      EndFreed(img0, v0.free, dest, was, img1, free1, indirectData, level, n, m, startIdx, endIdx, d.Image());
      dest' := EOF;
    } else {
      d.WriteOwned(dest, Indirect(indirectData));
      EndWritten(img0, v0.free, dest, was, img1, free1, indirectData, level, n, m, startIdx, endIdx, d.Image());
      dest' := dest;
    }
  }

  lemma {:induction false} RootOwned(before: Image, free0: set<int>, t0: Tree, b: int, was: seq<Tree>, img: Image,
                                     free: set<int>, ptrs: seq<int>, level: nat, n: int, m: int, i: int)
    requires level > 0 && Shrinking(before, free0, t0, b, was, img, free, ptrs, level, n, m, i)
    requires Clean(free0, t0, DataStart(before), |before|)
    ensures DataStart(before) <= b < |before| && b !in free
  {
    assert Look(0);
    ChildClean(free0, t0, DataStart(before), |before|, free, b, Forest(img, ptrs, level - 1), 0);
  }
}
