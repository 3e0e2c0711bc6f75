// inode_indirect_grow: allocating data blocks below one pointer.

module IndirectGrow {
  import opened Geometry
  import opened Blocks
  import opened Trees
  import opened FreeLists

  /** Which test decides, when nothing could be added, that the indirect block itself is
      released: the one in the source text, or the one its comment describes. */
  datatype ReleaseTest = StartIdxIsZero | BlockIsNew

  /** Blocks needed to add data position `n`: itself and the indirect blocks it is first in. */
  ghost function Cost(level: nat, n: int): nat
    decreases level
  {
    if level == 0 then 1
    else (if n == 0 then 1 else 0) + Cost(level - 1, Rest(level, n))
  }

  /** Some indirect block on the way to position `n` is already in use, but not beyond its
      first child. */
  ghost predicate FirstChildPartial(level: nat, n: int)
    decreases level
  {
    level > 0 && n > 0 &&
    (n < IndirectCount(level - 1) || FirstChildPartial(level - 1, Rest(level, n)))
  }

  /** The inputs on which the source's test releases a block that is in use. */
  ghost predicate Hazard(test: ReleaseTest, level: nat, n: int, free: nat) {
    test.StartIdxIsZero? && free < Cost(level, n) && FirstChildPartial(level, n)
  }

  /** The first `n` data blocks of a tree hold what they held. */
  ghost predicate KeptLeaves(before: Image, after: Image, t: Tree, level: nat, n: int) {
    forall k :: 0 <= k < n ==> KeptLeaf(before, after, LeafAt(t, level, k))
  }

  ghost predicate KeptLeaf(before: Image, after: Image, x: int) {
    |before| == |after| && (0 <= x < |before| ==> after[x] == before[x])
  }

  lemma {:induction false} KeptSame(img: Image, t: Tree, level: nat, n: int)
    ensures KeptLeaves(img, img, t, level, n)
  {
  }

  /** Nothing outside the tree and the free blocks has changed. */
  ghost predicate SameBut(before: Image, after: Image, free: set<int>, p: int, level: nat) {
    forall u :: Look(u) ==> Same(before, after, free, TreeOf(before, p, level))
  }

  /** The tree has been extended from `n` to `c` data blocks: all that it held is still there. */
  ghost predicate Extended(before: Image, free: set<int>, p: int, after: Image, free': set<int>, p': int, level: nat,
                           n: int, c: int) {
    forall u :: Look(u) ==>
      var t, t' := TreeOf(before, p, level), TreeOf(after, p', level);
      && Shape(t', level, c) && Prune(t', level, n) == t
      && Conserves(free, t, free', t')
      && KeptLeaves(before, after, t, level, n)
  }

  /** What growing from `n` towards `target` data blocks does, when no live block is released. */
  ghost predicate Grew(before: Image, free: set<int>, p: int, after: Image, free': set<int>, p': int, level: nat,
                       n: int, target: int, ok: bool, added: int) {
    && 0 <= added && n + added <= target
    && (ok ==> n + added == target)
    && (!ok ==> n + added < target && |free'| < Cost(level, n + added))
    && (added == 0 <==> |free| < Cost(level, n))
    && Extended(before, free, p, after, free', p', level, n, n + added)
  }

  /** A child that held `n` positions, in tree `was`, and now holds `c`. */
  ghost predicate ChildOk(before: Image, img: Image, was: Tree, t: Tree, level: nat, n: int, c: int) {
    Shape(t, level, c) && Prune(t, level, n) == was && KeptLeaves(before, img, was, level, n)
  }

  /** A loop over the children of block `b`: together they hold `c` positions so far. */
  ghost predicate Growing(before: Image, free0: set<int>, t0: Tree, b: int, was: seq<Tree>, img: Image, free: set<int>,
                          ptrs: seq<int>, level: nat, n: int, c: int)
    requires level > 0
  {
    && |ptrs| == |was| == N
    && forall u :: Look(u) ==>
    var ts := Forest(img, ptrs, level - 1);
    && (forall j :: 0 <= j < N ==> ChildOk(before, img, was[j], ts[j], level - 1, Share(n, level, j),
                                           Share(c, level, j)))
    && Conserves(free0, t0, free, Node(b, ts))
    && Same(before, img, free0, t0)
  }

  /** What cleanness of the whole gives child `i` of block `b`. */
  lemma {:induction false} ChildClean(free0: set<int>, t0: Tree, lo: int, hi: int, free: set<int>, b: int,
                                      ts: seq<Tree>, i: nat)
    requires i < |ts| && lo > 0
    requires Clean(free0, t0, lo, hi) && Conserves(free0, t0, free, Node(b, ts))
    ensures Clean(free, ts[i], lo, hi)
    ensures forall x :: In(free, x) + One(b, x) + CountAll(ts, x) <= 1
    ensures forall x :: CountAll(ts, x) > 0 ==> lo <= x
    ensures lo <= b < hi && b !in free && CountAll(ts, b) == 0
  {
    forall x
      ensures In(free, x) + One(b, x) + CountAll(ts, x) <= 1
      ensures CountAll(ts, x) + One(b, x) > 0 ==> lo <= x < hi
      ensures Sole(free, ts[i], lo, hi, x)
    {
      assert Sole(free0, t0, lo, hi, x) && Conserved(free0, t0, free, Node(b, ts), x);
      CountMember(ts, i, x);
    }
    assert One(b, b) == 1;
  }

  /** A step inside child `i` conserves blocks, and touches none but the parent's. */
  lemma {:induction false} ChildStep(before: Image, free0: set<int>, t0: Tree, lo: int, b: int, img: Image,
                                     free: set<int>, ts: seq<Tree>, i: nat, img': Image, free': set<int>, t': Tree)
    requires i < |ts| && lo > 0
    requires Clean(free0, t0, lo, |before|) && Conserves(free0, t0, free, Node(b, ts)) && Same(before, img, free0, t0)
    requires Conserves(free, ts[i], free', t') && Same(img, img', free, ts[i])
    ensures Conserves(free0, t0, free', Node(b, ts[i := t']))
    ensures Same(before, img', free0, t0)
  {
    var whole := Node(b, ts[i := t']);
    forall x ensures Conserved(free0, t0, free', whole, x) {
      assert Conserved(free0, t0, free, Node(b, ts), x) && Conserved(free, ts[i], free', t', x);
      CountUpdate(ts, i, t', x);
    }
    forall x | 0 < x < |before| && x !in free0 && Count(t0, x) == 0 ensures img'[x] == before[x] {
      assert Conserved(free0, t0, free, Node(b, ts), x);
      CountMember(ts, i, x);
    }
  }

  /** The data blocks of child `j` are outside child `i`, so a step there leaves them alone. */
  lemma {:induction false} OtherChild(before: Image, img: Image, was: Tree, free: set<int>, ts: seq<Tree>, lo: int,
                                      i: nat, img': Image, j: nat, level: nat, n: int, c: int)
    requires i < |ts| && j < |ts| && i != j && lo > 0
    requires forall x :: In(free, x) + CountAll(ts, x) <= 1
    requires forall x :: CountAll(ts, x) > 0 ==> lo <= x
    requires Same(img, img', free, ts[i])
    requires 0 <= n <= c <= IndirectCount(level)
    requires ChildOk(before, img, was, ts[j], level, n, c)
    ensures ChildOk(before, img', was, ts[j], level, n, c)
  {
    forall k | 0 <= k < n ensures KeptLeaf(before, img', LeafAt(was, level, k)) {
      var x := LeafAt(was, level, k);
      LeafAtPrune(ts[j], level, c, n, k);
      LeafAtMember(ts[j], level, c, k);
      CountPair(ts, i, j, x);
      assert KeptLeaf(before, img, x);
    }
  }

  /** The child that grew: either it holds what it held before the loop, or it was empty then. */
  lemma {:induction false} GrownChild(before: Image, img: Image, free: set<int>, p: int, img': Image, free': set<int>,
                                      p': int, was: Tree, level: nat, c: int, n: int, target: int, ok: bool, added: int,
                                      e: int)
    requires Grew(img, free, p, img', free', p', level, c, target, ok, added) && e == c + added
    requires ChildOk(before, img, was, TreeOf(img, p, level), level, n, c)
    requires n == 0 || n == c
    ensures ChildOk(before, img', was, TreeOf(img', p', level), level, n, e)
  {
    assert Look(0);
    PruneId(TreeOf(img, p, level), level, c);
    forall k | 0 <= k < n ensures KeptLeaf(before, img', LeafAt(was, level, k)) {
      assert KeptLeaf(before, img, LeafAt(was, level, k));
      assert KeptLeaf(img, img', LeafAt(was, level, k));
    }
  }

  lemma {:induction false} GrowChildOther(before: Image, img: Image, was: Tree, free: set<int>, ts: seq<Tree>, lo: int,
                                          i: nat, img': Image, j: nat, level: nat, n: int, c: int, added: int)
    requires level > 0 && i < |ts| && j < |ts| && i != j && lo > 0
    requires forall x :: In(free, x) + CountAll(ts, x) <= 1
    requires forall x :: CountAll(ts, x) > 0 ==> lo <= x
    requires Same(img, img', free, ts[i])
    requires 0 <= n <= c && 0 <= added && Start(level, i) <= c && c + added <= Start(level, i + 1)
    requires ChildOk(before, img, was, ts[j], level - 1, Share(n, level, j), Share(c, level, j))
    ensures ChildOk(before, img', was, ts[j], level - 1, Share(n, level, j), Share(c + added, level, j))
  {
    ShareStep(c, c + added, level, i, j);
    OtherChild(before, img, was, free, ts, lo, i, img', j, level - 1, Share(n, level, j), Share(c, level, j));
  }

  lemma {:induction false} GrowChildSelf(before: Image, img: Image, free: set<int>, p: int, img': Image,
                                         free': set<int>, p': int, was: Tree, level: nat, n: int, c: int, i: nat,
                                         target: int, ok: bool, added: int)
    requires level > 0 && 0 <= n <= c && (c == n || n <= Start(level, i))
    requires Start(level, i) <= c && c + added <= Start(level, i + 1)
    requires Grew(img, free, p, img', free', p', level - 1, Share(c, level, i), target, ok, added)
    requires ChildOk(before, img, was, TreeOf(img, p, level - 1), level - 1, Share(n, level, i), Share(c, level, i))
    ensures ChildOk(before, img', was, TreeOf(img', p', level - 1), level - 1, Share(n, level, i),
                    Share(c + added, level, i))
  {
    assert Look(0);
    ShareStep(c, c + added, level, i, i);
    ShareStep(c + added, c + added, level, i, i);
    GrownChild(before, img, free, p, img', free', p', was, level - 1, Share(c, level, i), Share(n, level, i), target,
               ok, added,
               Share(c + added, level, i));
  }

  lemma {:induction false} GrowChildren(before: Image, was: seq<Tree>, img: Image, free: set<int>, ptrs: seq<int>,
                                        ts: seq<Tree>, lo: int, level: nat, n: int, c: int, i: nat, target: int,
                                        img': Image, free': set<int>, p': int, ok: bool, added: int)
    requires level > 0 && |ts| == |was| == |ptrs| == N && i < N && lo > 0 && ts[i] == TreeOf(img, ptrs[i], level - 1)
    requires forall j :: 0 <= j < N ==> ChildOk(before, img, was[j], ts[j], level - 1, Share(n, level, j),
                                                Share(c, level, j))
    requires forall x :: In(free, x) + CountAll(ts, x) <= 1
    requires forall x :: CountAll(ts, x) > 0 ==> lo <= x
    requires Same(img, img', free, ts[i])
    requires 0 <= n <= c && Start(level, i) <= c && c + added <= Start(level, i + 1)
    requires c == n || n <= Start(level, i)
    requires Grew(img, free, ptrs[i], img', free', p', level - 1, Share(c, level, i), target, ok, added)
    ensures forall j :: 0 <= j < N ==>
      ChildOk(before, img', was[j], ts[i := TreeOf(img', p', level - 1)][j], level - 1, Share(n, level, j),
              Share(c + added, level, j))
  {
    forall j | 0 <= j < N
      ensures ChildOk(before, img', was[j], ts[i := TreeOf(img', p', level - 1)][j], level - 1, Share(n, level, j),
                      Share(c + added, level, j))
    {
      assert ChildOk(before, img, was[j], ts[j], level - 1, Share(n, level, j), Share(c, level, j));
      if j != i {
        GrowChildOther(before, img, was[j], free, ts, lo, i, img', j, level, n, c, added);
      } else {
        GrowChildSelf(before, img, free, ptrs[i], img', free', p', was[i], level, n, c, i, target, ok, added);
      }
    }
  }

  lemma {:induction false} GrownForest(before: Image, free0: set<int>, t0: Tree, lo: int, b: int, was: seq<Tree>,
                                       img: Image, free: set<int>, ptrs: seq<int>, level: nat, n: int, c: int, i: nat,
                                       target: int, img': Image, free': set<int>, p': int, ok: bool, added: int)
    requires level > 0 && i < N && lo > 0 && |before| > 0
    requires Growing(before, free0, t0, b, was, img, free, ptrs, level, n, c)
    requires Clean(free0, t0, lo, |before|)
    requires 0 <= n <= c && Start(level, i) <= c
    requires c + added <= Start(level, i + 1)
    requires c == n || n <= Start(level, i)
    requires Grew(img, free, ptrs[i], img', free', p', level - 1, Share(c, level, i), target, ok, added)
    requires SameBut(img, img', free, ptrs[i], level - 1)
    ensures |ptrs| == |was| == N
    ensures var ts := Forest(img', ptrs[i := p'], level - 1);
      && (forall j :: 0 <= j < N ==> ChildOk(before, img', was[j], ts[j], level - 1, Share(n, level, j),
                                             Share(c + added, level, j)))
      && Conserves(free0, t0, free', Node(b, ts))
    ensures Same(before, img', free0, t0)
  {
    assert Look(0);
    var ts := Forest(img, ptrs, level - 1);
    var t' := TreeOf(img', p', level - 1);
    ChildClean(free0, t0, lo, |before|, free, b, ts, i);
    ForestFrame(img, img', ptrs, level - 1, free, lo, i, p');
    ChildStep(before, free0, t0, lo, b, img, free, ts, i, img', free', t');
    GrowChildren(before, was, img, free, ptrs, ts, lo, level, n, c, i, target, img', free', p', ok, added);
  }

  lemma {:induction false} GrowChild(before: Image, free0: set<int>, t0: Tree, lo: int, b: int, was: seq<Tree>,
                                     img: Image, free: set<int>, ptrs: seq<int>, level: nat, n: int, c: int, i: nat,
                                     target: int, img': Image, free': set<int>, p': int, ok: bool, added: int)
    requires level > 0 && i < N && lo > 0 && |before| > 0
    requires Growing(before, free0, t0, b, was, img, free, ptrs, level, n, c)
    requires Clean(free0, t0, lo, |before|)
    requires 0 <= n <= c && Start(level, i) <= c
    requires c + added <= Start(level, i + 1)
    requires c == n || n <= Start(level, i)
    requires Grew(img, free, ptrs[i], img', free', p', level - 1, Share(c, level, i), target, ok, added)
    requires SameBut(img, img', free, ptrs[i], level - 1)
    ensures Growing(before, free0, t0, b, was, img', free', ptrs[i := p'], level, n, c + added)
  {
    GrownForest(before, free0, t0, lo, b, was, img, free, ptrs, level, n, c, i, target, img', free', p', ok, added);
  }

  // ----- before and after the loop -----

  /** Storing the pointers in the block turns the forest into a tree. */
  lemma {:induction false} NodeWritten(img: Image, img': Image, b: int, ptrs: seq<int>, level: nat)
    requires level > 0 && |ptrs| == N && 0 <= b < |img|
    requires img' == img[b := Indirect(ptrs)]
    requires CountAll(Forest(img, ptrs, level - 1), b) == 0
    ensures TreeOf(img', b, level) == Node(b, Forest(img, ptrs, level - 1))
  {
    var ts := Forest(img, ptrs, level - 1);
    forall j | 0 <= j < N ensures TreeOf(img', ptrs[j], level - 1) == ts[j] {
      CountMember(ts, j, b);
      TreeFrame(img, img', ptrs[j], level - 1);
    }
    assert TreeOf(img', b, level).kids == ts;
  }

  /** The loop starts from the children of a block in use... */
  lemma {:induction false} StartFromOld(img: Image, free: set<int>, p: int, level: nat, n: int)
    requires level > 0 && 0 < n && Shape(TreeOf(img, p, level), level, n)
    ensures img[p].Indirect? && |img[p].ptrs| == N
    ensures TreeOf(img, p, level) == Node(p, Forest(img, img[p].ptrs, level - 1))
    ensures Growing(img, free, TreeOf(img, p, level), p, Forest(img, img[p].ptrs, level - 1), img, free, img[p].ptrs,
                    level, n, n)
  {
    assert Look(0);
    var t := TreeOf(img, p, level);
    var ts := Forest(img, img[p].ptrs, level - 1);
    assert t == Node(p, t.kids) && ts == t.kids;
    forall j | 0 <= j < N ensures ChildOk(img, img, ts[j], ts[j], level - 1, Share(n, level, j), Share(n, level, j)) {
      PruneId(ts[j], level - 1, Share(n, level, j));
      KeptSame(img, ts[j], level - 1, Share(n, level, j));
    }
    forall x ensures Conserved(free, t, free, Node(p, ts), x) {
    }
  }

  /** ... or from a new block with no child. */
  lemma {:induction false} StartFromNew(before: Image, free: set<int>, b: int, img: Image, free': set<int>,
                                        ptrs: seq<int>, level: nat)
    requires level > 0 && |ptrs| == N && forall j :: 0 <= j < N ==> ptrs[j] == EOF
    requires ListOnly(before, img, free) && b in free && free' == free - {b}
    ensures Growing(before, free, Nil, b, Forest(img, ptrs, level - 1), img, free', ptrs, level, 0, 0)
  {
    assert Look(0);
    var ts := Forest(img, ptrs, level - 1);
    forall j | 0 <= j < N ensures ChildOk(before, img, ts[j], ts[j], level - 1, Share(0, level, j),
                                          Share(0, level, j)) {
    }
    var whole := Node(b, ts);
    forall x ensures Conserved(free, Nil, free', whole, x) {
      NilForest(ts, x);
    }
  }

  /** The children of a block that has no data below it are all missing. */
  lemma {:induction false} NoChildren(before: Image, free0: set<int>, t0: Tree, b: int, was: seq<Tree>, img: Image,
                                      free: set<int>, ptrs: seq<int>, level: nat)
    requires level > 0 && Growing(before, free0, t0, b, was, img, free, ptrs, level, 0, 0)
    ensures Conserves(free0, t0, free + {b}, Nil) || b in free
  {
    assert Look(0);
    var ts := Forest(img, ptrs, level - 1);
    forall j | 0 <= j < N ensures ts[j] == Nil {
      assert ChildOk(before, img, was[j], ts[j], level - 1, Share(0, level, j), Share(0, level, j));
    }
    if b !in free {
      forall x ensures Conserved(free0, t0, free + {b}, Nil, x) {
        assert Conserved(free0, t0, free, Node(b, ts), x);
        NilForest(ts, x);
      }
    }
  }

  /** The grown children are the children of the grown tree. */
  lemma {:induction false} GrownShape(before: Image, free0: set<int>, p: int, b: int, was: seq<Tree>, img: Image,
                                      free: set<int>, ptrs: seq<int>, ts: seq<Tree>, level: nat, n: int, c: int)
    requires level > 0 && 0 <= n <= c && 0 < c <= IndirectCount(level) && ts == Forest(img, ptrs, level - 1)
    requires Growing(before, free0, TreeOf(before, p, level), b, was, img, free, ptrs, level, n, c)
    requires Shape(TreeOf(before, p, level), level, n) && (n > 0 ==> TreeOf(before, p, level) == Node(b, was))
    ensures Shape(Node(b, ts), level, c) && Prune(Node(b, ts), level, n) == TreeOf(before, p, level)
    ensures Conserves(free0, TreeOf(before, p, level), free, Node(b, ts))
  {
    assert Look(0);
    forall j | 0 <= j < N
      ensures Shape(ts[j], level - 1, Share(c, level, j)) && Prune(ts[j], level - 1, Share(n, level, j)) == was[j]
    {
      assert ChildOk(before, img, was[j], ts[j], level - 1, Share(n, level, j), Share(c, level, j));
    }
    if n > 0 {
      assert Prune(Node(b, ts), level, n).kids == was;
    }
  }

  /** The data blocks there were hold what they held. */
  lemma {:induction false} GrownLeaves(before: Image, free0: set<int>, p: int, b: int, was: seq<Tree>, img: Image,
                                       free: set<int>, ptrs: seq<int>, img': Image, level: nat, n: int, c: int)
    requires level > 0 && 0 < n <= c <= IndirectCount(level) && 0 <= b < |img| && img' == img[b := Indirect(ptrs)]
    requires Growing(before, free0, TreeOf(before, p, level), b, was, img, free, ptrs, level, n, c)
    requires Shape(TreeOf(before, p, level), level, n) && TreeOf(before, p, level) == Node(b, was)
    requires Clean(free0, TreeOf(before, p, level), DataStart(before), |before|)
    ensures KeptLeaves(before, img', TreeOf(before, p, level), level, n)
  {
    assert Look(0);
    var t := TreeOf(before, p, level);
    var ts := Forest(img, ptrs, level - 1);
    assert t.kids == was && |ts| == N;
    forall k | 0 <= k < n ensures KeptLeaf(before, img', LeafAt(t, level, k)) {
      var j := ChildOf(level, k);
      ShareHolds(n, level, k);
      assert ChildOk(before, img, was[j], ts[j], level - 1, Share(n, level, j), Share(c, level, j));
      assert KeptLeaf(before, img, LeafAt(was[j], level - 1, Rest(level, k)));
      LeafNotNode(t, level, n, k);
      assert Sole(free0, t, DataStart(before), |before|, b);
    }
  }

  /** What the loop leaves, once the block has been written back. */
  lemma {:induction false} EndOfLoop(before: Image, free0: set<int>, p: int, b: int, was: seq<Tree>, img: Image,
                                     free: set<int>, ptrs: seq<int>, img': Image, level: nat, n: int, c: int)
    requires level > 0 && |before| > 0 && 0 <= n <= c && 0 < c <= IndirectCount(level)
    requires Growing(before, free0, TreeOf(before, p, level), b, was, img, free, ptrs, level, n, c)
    requires Shape(TreeOf(before, p, level), level, n)
    requires n > 0 ==> TreeOf(before, p, level) == Node(b, was)
    requires Clean(free0, TreeOf(before, p, level), DataStart(before), |before|) && DataStart(before) > 0
    requires 0 <= b < |img| && img' == img[b := Indirect(ptrs)]
    ensures Shape(TreeOf(img', b, level), level, c)
    ensures Prune(TreeOf(img', b, level), level, n) == TreeOf(before, p, level)
    ensures Conserves(free0, TreeOf(before, p, level), free, TreeOf(img', b, level))
    ensures KeptLeaves(before, img', TreeOf(before, p, level), level, n)
    ensures Same(before, img', free0, TreeOf(before, p, level))
  {
    var t := TreeOf(before, p, level);
    var ts := Forest(img, ptrs, level - 1);
    GrownShape(before, free0, p, b, was, img, free, ptrs, ts, level, n, c);
    if n > 0 {
      GrownLeaves(before, free0, p, b, was, img, free, ptrs, img', level, n, c);
    }
    assert Look(0);
    ChildClean(free0, t, DataStart(before), |before|, free, b, ts, 0);
    NodeWritten(img, img', b, ptrs, level);
    assert Conserved(free0, t, free, Node(b, ts), b);
  }

  /** A data block of a clean tree is not its root block. */
  lemma {:induction false} LeafNotNode(t: Tree, level: nat, n: int, k: int)
    requires level > 0 && Shape(t, level, n) && 0 <= k < n <= IndirectCount(level)
    ensures Count(t, t.b) <= 1 ==> LeafAt(t, level, k) != t.b
  {
    var i := ChildOf(level, k);
    ShareHolds(n, level, k);
    LeafAtMember(t.kids[i], level - 1, Share(n, level, i), Rest(level, k));
    CountMember(t.kids, i, LeafAt(t, level, k));
  }

  /** No block is listed or used more often than before; some may be lost. */
  ghost predicate NotMore(free: set<int>, t: Tree, free': set<int>, t': Tree, x: int) {
    In(free', x) + Count(t', x) <= In(free, x) + Count(t, x)
  }

  ghost predicate NoneMore(free: set<int>, t: Tree, free': set<int>, t': Tree) {
    forall x :: NotMore(free, t, free', t', x)
  }

  /** What the source's test does when it releases a block in use: the tree no longer holds
      the data it held. */
  ghost predicate Broke(before: Image, free: set<int>, p: int, after: Image, free': set<int>, p': int, level: nat,
                        n: int) {
    forall u :: Look(u) ==>
      && !Shape(TreeOf(after, p', level), level, n)
      && NoneMore(free, TreeOf(before, p, level), free', TreeOf(after, p', level))
  }

  /** First and last child to visit when data positions run from `x` to `y`, counted from the
      start of the block. */
  lemma {:induction false} Range(level: nat, x: int, y: int, first: int, last: int)
    requires level > 0 && x < IndirectCount(level) && y > 0 && x < y
    requires first == if x > 0 then x / IndirectCount(level - 1) else 0
    requires last
          == N - 1 - (if IndirectCount(level) > y then (IndirectCount(level) - y) / IndirectCount(level - 1) else 0)
    ensures 0 <= first <= last < N
    ensures Start(level, first) <= Within(x, IndirectCount(level)) < Start(level, first + 1)
    ensures Start(level, last) < Within(y, IndirectCount(level)) <= Start(level, last + 1)
  {
    var d := IndirectCount(level - 1);
    StartIs(level, N);
    if x > 0 {
      Divide(x, d);
      QuotientBelow(x, d, N);
      StartIs(level, first);
    }
    if IndirectCount(level) > y {
      var z := IndirectCount(level) - y;
      Divide(z, d);
      QuotientBelow(z, d, N);
      Minus(N, z / d, d);
      StartIs(level, last + 1);
    }
    if first > last {
      StartMono(level, last + 1, first);
    }
  }

  lemma {:induction false} Minus(a: int, b: int, d: int)
    ensures (a - b) * d == a * d - b * d
  {
  }

  /** What a call may assume: the pointer holds the first `n` data blocks of its span, all its
      blocks are its own, and there is something to add within the span. */
  ghost predicate MayGrow(img: Image, v: View, dest: int, level: nat, n: int, target: int) {
    && Mounted(img, v) && 0 <= n < target <= IndirectCount(level)
    && Shape(TreeOf(img, dest, level), level, n)
    && Clean(v.free, TreeOf(img, dest, level), DataStart(img), |img|)
  }

  ghost predicate GrowResult(before: Image, v: View, dest: int, after: Image, v': View, dest': int, level: nat, n: int,
                             target: int, test: ReleaseTest, ok: bool, added: int) {
    && Mounted(after, v') && v' == v.(chain := v'.chain, free := v'.free)
    && |after| == |before| && DataStart(after) == DataStart(before)
    && SameBut(before, after, v.free, dest, level)
    && (if Hazard(test, level, n, |v.free|)
        then !ok && added == 0 && Broke(before, v.free, dest, after, v'.free, dest', level, n)
        else Grew(before, v.free, dest, after, v'.free, dest', level, n, target, ok, added))
  }

  lemma {:induction false} CostPositive(level: nat, n: int)
    ensures Cost(level, n) >= 1
  {
    if level > 0 {
      CostPositive(level - 1, Rest(level, n));
    }
  }

  /** No block left for the pointer itself. */
  lemma {:induction false} NoSpace(img: Image, v: View, level: nat, n: int, target: int, test: ReleaseTest)
    requires MayGrow(img, v, EOF, level, n, target) && v.free == {}
    ensures GrowResult(img, v, EOF, img, v, EOF, level, n, target, test, false, 0)
  {
    assert Look(0);
    CostPositive(level, 0);
  }

  /** A data block has been added. */
  lemma {:induction false} LeafAdded(before: Image, v: View, n: int, target: int, test: ReleaseTest, after: Image,
                                     v': View, b: int)
    requires MayGrow(before, v, EOF, 0, n, target)
    requires Mounted(after, v') && b in v.free && v' == v.(chain := v'.chain, free := v.free - {b})
    requires ListOnly(before, after, v.free)
    ensures GrowResult(before, v, EOF, after, v', b, 0, n, target, test, true, 1)
  {
    assert Look(0);
    assert Sole(v.free, Nil, DataStart(before), |before|, b);
    forall x ensures Conserved(v.free, Nil, v'.free, Leaf(b), x) {
    }
  }

  /** A step inside child `i` that may lose blocks, but uses none twice. */
  lemma {:induction false} BrokeStep(before: Image, free0: set<int>, t0: Tree, lo: int, b: int, img: Image,
                                     free: set<int>, ts: seq<Tree>, i: nat, img': Image, free': set<int>, t': Tree)
    requires i < |ts| && lo > 0
    requires Clean(free0, t0, lo, |before|) && Conserves(free0, t0, free, Node(b, ts)) && Same(before, img, free0, t0)
    requires NoneMore(free, ts[i], free', t') && Same(img, img', free, ts[i])
    ensures NoneMore(free0, t0, free', Node(b, ts[i := t']))
    ensures Same(before, img', free0, t0)
  {
    var whole := Node(b, ts[i := t']);
    forall x ensures NotMore(free0, t0, free', whole, x) {
      assert Conserved(free0, t0, free, Node(b, ts), x) && NotMore(free, ts[i], free', t', x);
      CountUpdate(ts, i, t', x);
    }
    forall x | 0 < x < |before| && x !in free0 && Count(t0, x) == 0 ensures img'[x] == before[x] {
      assert Conserved(free0, t0, free, Node(b, ts), x);
      CountMember(ts, i, x);
    }
  }

  /** A child whose live block was released: the parent's blocks are still not duplicated. */
  lemma {:induction false} BrokeChild(before: Image, free0: set<int>, t0: Tree, lo: int, b: int, img: Image,
                                      free: set<int>, ptrs: seq<int>, level: nat, i: nat, img': Image, free': set<int>,
                                      p': int, n: int)
    requires level > 0 && i < |ptrs| && lo > 0
    requires var ts := Forest(img, ptrs, level - 1);
      && Clean(free0, t0, lo, |before|) && Conserves(free0, t0, free, Node(b, ts)) && Same(before, img, free0, t0)
      && Broke(img, free, ptrs[i], img', free', p', level - 1, n)
      && Same(img, img', free, ts[i])
    ensures NoneMore(free0, t0, free', Node(b, Forest(img', ptrs[i := p'], level - 1)))
    ensures Same(before, img', free0, t0)
  {
    assert Look(0);
    var ts := Forest(img, ptrs, level - 1);
    ChildClean(free0, t0, lo, |before|, free, b, ts, i);
    ForestFrame(img, img', ptrs, level - 1, free, lo, i, p');
    BrokeStep(before, free0, t0, lo, b, img, free, ts, i, img', free', TreeOf(img', p', level - 1));
  }

  // ----- the loop -----

  /** Positions `n` to `target` start in child `first` and end in child `last`. */
  ghost predicate Span(level: nat, n: int, target: int, first: int, last: int) {
    && level > 0 && 0 <= first <= last < N && 0 <= n < target <= IndirectCount(level)
    && Start(level, first) <= n < Start(level, first + 1)
    && Start(level, last) < target <= Start(level, last + 1)
  }

  /** Where the count stands, at `c`, when the loop has reached child `i`. */
  ghost predicate Counting(level: nat, n: int, target: int, first: int, last: int, i: int, c: int, success: bool)
    requires level > 0
  {
    && first <= i <= last + 1 && n <= c
    && (i == first ==> success && c == n)
    && (i > first ==> if success then c == (if Start(level, i) <= target then Start(level, i) else target)
                      else c < target && Start(level, i - 1) <= c < Start(level, i))
  }

  lemma {:induction false} CountingHere(level: nat, n: int, target: int, first: int, last: int, i: int, c: int)
    requires Span(level, n, target, first, last) && Counting(level, n, target, first, last, i, c, true) && i <= last
    ensures Start(level, i) <= c < Start(level, i + 1) && Start(level, i) < target
    ensures Share(c, level, i) == c - Start(level, i)
    ensures 0 <= Share(c, level, i) < Share(target, level, i) <= IndirectCount(level - 1)
    ensures i > first ==> n <= Start(level, i) && n < c && Share(c, level, i) == 0 && Share(n, level, i) == 0
  {
    StartMono(level, i, last);
    if i > first {
      StartMono(level, first, i);
    }
    ShareStep(c, c, level, i, i);
  }

  lemma {:induction false} CountingStep(level: nat, n: int, target: int, first: int, last: int, i: int, c: int,
                                        ok: bool, more: int)
    requires Span(level, n, target, first, last) && Counting(level, n, target, first, last, i, c, true) && i <= last
    requires 0 <= more && Share(c, level, i) + more <= Share(target, level, i)
    requires ok <==> Share(c, level, i) + more == Share(target, level, i)
    ensures Counting(level, n, target, first, last, i + 1, c + more, ok)
    ensures c + more <= Start(level, i + 1)
  {
    CountingHere(level, n, target, first, last, i, c);
  }

  /** Free blocks before the loop, `had`, and during it, compared with what the next position
      costs. */
  ghost predicate Paying(test: ReleaseTest, level: nat, n: int, first: int, had: nat, free: nat, i: int, c: int,
                         success: bool)
    requires level > 0
  {
    && (i == first ==> free == had)
    && (i > first ==> !Hazard(test, level - 1, Share(n, level, first), had))
    && (i > first ==> (c == n <==> had < Cost(level - 1, Share(n, level, first))))
    && (!success ==> free < Cost(level - 1, c - Start(level, i - 1)))
  }

  /** After its first child, a loop that has not failed meets only children with no data yet. */
  lemma {:induction false} StepIsGood(test: ReleaseTest, level: nat, n: int, target: int, first: int, last: int,
                                      had: nat, free: nat, i: int, c: int)
    requires Span(level, n, target, first, last) && Counting(level, n, target, first, last, i, c, true) && i <= last
    requires Paying(test, level, n, first, had, free, i, c, true)
    requires !(i == first && Hazard(test, level - 1, Share(n, level, first), had))
    ensures !Hazard(test, level - 1, Share(n, level, i), free)
  {
    CountingHere(level, n, target, first, last, i, c);
  }

  /** Only the first child can be at risk. */
  lemma {:induction false} OnlyFirst(test: ReleaseTest, level: nat, n: int, target: int, first: int, last: int,
                                     had: nat, free: nat, i: int, c: int)
    requires Span(level, n, target, first, last) && Counting(level, n, target, first, last, i, c, true) && i <= last
    requires Paying(test, level, n, first, had, free, i, c, true)
    requires Hazard(test, level - 1, Share(n, level, i), free)
    ensures i == first && free == had
  {
    if i != first {
      StepIsGood(test, level, n, target, first, last, had, free, i, c);
    }
  }

  lemma {:induction false} PayingStep(test: ReleaseTest, level: nat, n: int, target: int, first: int, last: int,
                                      had: nat, free: nat, i: int, c: int, free': nat, ok: bool, more: int)
    requires Span(level, n, target, first, last) && Counting(level, n, target, first, last, i, c, true) && i <= last
    requires Paying(test, level, n, first, had, free, i, c, true)
    requires !(i == first && Hazard(test, level - 1, Share(n, level, first), had))
    requires 0 <= more
    requires !ok ==> free' < Cost(level - 1, Share(n, level, i) + more)
    requires more == 0 <==> free < Cost(level - 1, Share(n, level, i))
    ensures Paying(test, level, n, first, had, free', i + 1, c + more, ok)
  {
    CountingHere(level, n, target, first, last, i, c);
    assert Share(n, level, i) + more == c + more - Start(level, i);
  }

  /** The state of the loop, as long as no live block has been released. */
  ghost predicate LoopGood(before: Image, free0: set<int>, t0: Tree, test: ReleaseTest, level: nat, n: int, target: int,
                           first: int, last: int, b: int, was: seq<Tree>, had: nat, img: Image, free: set<int>,
                           ptrs: seq<int>, i: int, c: int, success: bool)
    requires level > 0
  {
    && Counting(level, n, target, first, last, i, c, success)
    && Growing(before, free0, t0, b, was, img, free, ptrs, level, n, c)
    && Paying(test, level, n, first, had, |free|, i, c, success)
  }

  /** The state of the loop after the source's test has released a live block. */
  ghost predicate LoopBad(before: Image, free0: set<int>, t0: Tree, test: ReleaseTest, level: nat, n: int, first: int,
                          b: int, had: nat, img: Image, free: set<int>, ptrs: seq<int>, i: int, c: int, success: bool)
    requires level > 0
  {
    && !success && c == n && i == first + 1 && |ptrs| == N && 0 <= first < N
    && Hazard(test, level - 1, Share(n, level, first), had)
    && forall u :: Look(u) ==>
         && Same(before, img, free0, t0)
         && NoneMore(free0, t0, free, Node(b, Forest(img, ptrs, level - 1)))
         && !Shape(TreeOf(img, ptrs[first], level - 1), level - 1, Share(n, level, first))
  }

  /** Either of them; `lost` says which. */
  ghost predicate LoopState(lost: bool, before: Image, free0: set<int>, t0: Tree, test: ReleaseTest, level: nat, n: int,
                            target: int, first: int, last: int, b: int, was: seq<Tree>, had: nat, img: Image,
                            free: set<int>, ptrs: seq<int>, i: int, c: int, success: bool)
    requires level > 0
  {
    && |ptrs| == N && (lost ==> !success)
    && forall u :: Look(u) ==>
         if lost then LoopBad(before, free0, t0, test, level, n, first, b, had, img, free, ptrs, i, c, success)
         else LoopGood(before, free0, t0, test, level, n, target, first, last, b, was, had, img, free, ptrs, i, c,
                       success)
  }

  lemma {:induction false} LoopMeans(lost: bool, before: Image, free0: set<int>, t0: Tree, test: ReleaseTest,
                                     level: nat, n: int, target: int, first: int, last: int, b: int, was: seq<Tree>,
                                     had: nat, img: Image, free: set<int>, ptrs: seq<int>, i: int, c: int,
                                     success: bool)
    requires level > 0
    requires LoopState(lost, before, free0, t0, test, level, n, target, first, last, b, was, had, img, free, ptrs, i, c,
                       success)
    ensures lost ==> LoopBad(before, free0, t0, test, level, n, first, b, had, img, free, ptrs, i, c, success)
    ensures !lost ==> LoopGood(before, free0, t0, test, level, n, target, first, last, b, was, had, img, free, ptrs, i,
                               c, success)
  {
    assert Look(0);
  }

  lemma {:induction false} LoopReady(before: Image, free0: set<int>, t0: Tree, level: nat, n: int, target: int,
                                     first: int, last: int, b: int, was: seq<Tree>, img: Image, v: View, ptrs: seq<int>,
                                     i: int, c: int)
    requires Span(level, n, target, first, last) && Counting(level, n, target, first, last, i, c, true) && i <= last
    requires Growing(before, free0, t0, b, was, img, v.free, ptrs, level, n, c)
    requires Mounted(img, v) && DataStart(img) == DataStart(before) && |img| == |before|
    requires Clean(free0, t0, DataStart(before), |before|)
    ensures MayGrow(img, v, ptrs[i], level - 1, Share(n, level, i), Share(target, level, i))
    ensures Share(n, level, i) == Share(c, level, i)
  {
    assert Look(0);
    var ts := Forest(img, ptrs, level - 1);
    CountingHere(level, n, target, first, last, i, c);
    ChildClean(free0, t0, DataStart(before), |before|, v.free, b, ts, i);
    assert ChildOk(before, img, was[i], ts[i], level - 1, Share(n, level, i), Share(c, level, i));
  }

  lemma {:induction false} LoopStepBad(before: Image, free0: set<int>, t0: Tree, test: ReleaseTest, level: nat, n: int,
                                       target: int, first: int, b: int, was: seq<Tree>, had: nat, img: Image, v: View,
                                       ptrs: seq<int>, img': Image, v': View, child: int, ok: bool, more: int)
    requires level > 0 && 0 <= first < N && |before| > 0
    requires Growing(before, free0, t0, b, was, img, v.free, ptrs, level, n, n)
    requires Clean(free0, t0, DataStart(before), |before|)
    requires had == |v.free| && Hazard(test, level - 1, Share(n, level, first), had)
    requires GrowResult(img, v, ptrs[first], img', v', child, level - 1, Share(n, level, first),
                        Share(target, level, first), test, ok, more)
    ensures more == 0
    ensures LoopBad(before, free0, t0, test, level, n, first, b, had, img', v'.free, ptrs[first := child], first + 1, n,
                    ok)
  {
    assert Look(0);
    BrokeChild(before, free0, t0, DataStart(before), b, img, v.free, ptrs, level, first, img', v'.free, child,
               Share(n, level, first));
  }

  lemma {:induction false} LoopStepGood(before: Image, free0: set<int>, t0: Tree, test: ReleaseTest, level: nat, n: int,
                                        target: int, first: int, last: int, b: int, was: seq<Tree>, had: nat,
                                        img: Image, free: set<int>, ptrs: seq<int>, i: int, c: int, img': Image,
                                        free': set<int>, child: int, ok: bool, more: int)
    requires Span(level, n, target, first, last) && |before| > 0
    requires LoopGood(before, free0, t0, test, level, n, target, first, last, b, was, had, img, free, ptrs, i, c, true)
    requires i <= last
    requires Clean(free0, t0, DataStart(before), |before|)
    requires !(i == first && Hazard(test, level - 1, Share(n, level, first), had))
    requires SameBut(img, img', free, ptrs[i], level - 1)
    requires Grew(img, free, ptrs[i], img', free', child, level - 1, Share(n, level, i), Share(target, level, i), ok,
                  more)
    ensures LoopGood(before, free0, t0, test, level, n, target, first, last, b, was, had, img', free', ptrs[i := child],
                     i + 1, c + more, ok)
  {
    CountingHere(level, n, target, first, last, i, c);
    CountingStep(level, n, target, first, last, i, c, ok, more);
    PayingStep(test, level, n, target, first, last, had, |free|, i, c, |free'|, ok, more);
    GrowChild(before, free0, t0, DataStart(before), b, was, img, free, ptrs, level, n, c, i,
              Share(target, level, i), img', free', child, ok, more);
  }

  lemma {:induction false} LoopBegins(before: Image, free0: set<int>, t0: Tree, test: ReleaseTest, level: nat, n: int,
                                      target: int, first: int, last: int, b: int, was: seq<Tree>, had: nat, img: Image,
                                      free: set<int>, ptrs: seq<int>)
    requires Span(level, n, target, first, last) && had == |free|
    requires Growing(before, free0, t0, b, was, img, free, ptrs, level, n, n)
    ensures LoopState(false, before, free0, t0, test, level, n, target, first, last, b, was, had, img, free, ptrs,
                      first, n,
                      true)
  {
  }

  // ----- after the loop -----

  lemma {:induction false} ChildUnique(level: nat, k: int, i: nat)
    requires level > 0 && i < N && Start(level, i) <= k < Start(level, i + 1)
    ensures ChildOf(level, k) == i
  {
    var c := ChildOf(level, k);
    StartMono(level, i + 1, N);
    ChildFromIs(level, k, N - 1);
    if c < i {
      StartMono(level, c, i);
    } else if i < c {
      StartMono(level, i, c);
    }
  }

  /** The first child visited is the one position `n` falls to. */
  lemma {:induction false} FirstIsChild(level: nat, n: int, target: int, first: int, last: int)
    requires Span(level, n, target, first, last)
    ensures Rest(level, n) == Share(n, level, first)
    ensures first == 0 <==> n < IndirectCount(level - 1)
    ensures Cost(level, n) == (if n == 0 then 1 else 0) + Cost(level - 1, Share(n, level, first))
  {
    ChildUnique(level, n, first);
    ShareStep(n, n, level, first, first);
    if first > 0 {
      StartMono(level, 1, first);
    }
    assert Start(level, 1) == Start(level, 0) + IndirectCount(level - 1);
  }

  /** Once the loop has ended without failing, all positions up to the target are there. */
  lemma {:induction false} LoopDone(level: nat, n: int, target: int, first: int, last: int, i: int, c: int,
                                    success: bool)
    requires Span(level, n, target, first, last) && Counting(level, n, target, first, last, i, c, success)
    requires !(i <= last && success)
    ensures success ==> c == target
    ensures !success ==> c < target
    ensures i > first
  {
  }

  /** The position at which the loop failed costs the block's parent as much, or one more. */
  lemma {:induction false} FailedCost(level: nat, c: int, i: nat, free: nat)
    requires level > 0 && 0 < i <= N && Start(level, i - 1) <= c < Start(level, i)
    requires free < Cost(level - 1, c - Start(level, i - 1))
    ensures free + (if c == 0 then 1 else 0) < Cost(level, c)
  {
    ChildUnique(level, c, i - 1);
    assert Rest(level, c) == c - Start(level, i - 1);
  }

  /** Some data was added, or the block was in use before: it is written back. */
  lemma {:induction false} FinishGood(before: Image, v0: View, p: int, test: ReleaseTest, level: nat, n: int,
                                      target: int, first: int, last: int, b: int, was: seq<Tree>, had: nat, img: Image,
                                      v: View, ptrs: seq<int>, i: int, c: int, success: bool, img': Image, sum: int)
    requires Span(level, n, target, first, last) && |before| > 0 && c == n + sum && 0 < c
    requires LoopGood(before, v0.free, TreeOf(before, p, level), test, level, n, target, first, last, b, was, had, img,
                      v.free, ptrs, i, c, success)
    requires !(i <= last && success) && !(sum == 0 && test.StartIdxIsZero? && first == 0)
    requires Shape(TreeOf(before, p, level), level, n)
    requires n > 0 ==> TreeOf(before, p, level) == Node(b, was)
    requires had == if n == 0 then |v0.free| - 1 else |v0.free|
    requires Clean(v0.free, TreeOf(before, p, level), DataStart(before), |before|)
    requires 0 <= b < |img| && img' == img[b := Indirect(ptrs)]
    requires Mounted(img', v) && v == v0.(chain := v.chain, free := v.free)
    requires |img'| == |before| && DataStart(img') == DataStart(before)
    ensures GrowResult(before, v0, p, img', v, b, level, n, target, test, success, sum)
    ensures !Hazard(test, level, n, |v0.free|)
  {
    FinishNumbers(test, level, n, target, first, last, had, |v0.free|, |v.free|, i, c, success, sum);
    FinishTree(before, v0.free, p, b, was, img, v.free, ptrs, img', level, n, c);
  }

  lemma {:induction false} FinishNumbers(test: ReleaseTest, level: nat, n: int, target: int, first: int, last: int,
                                         had: nat, free0: nat, free: nat, i: int, c: int, success: bool, sum: int)
    requires Span(level, n, target, first, last) && c == n + sum && 0 < c && !(i <= last && success)
    requires Counting(level, n, target, first, last, i, c, success)
    requires Paying(test, level, n, first, had, free, i, c, success)
    requires !(sum == 0 && test.StartIdxIsZero? && first == 0)
    requires had == if n == 0 then free0 - 1 else free0
    ensures 0 <= sum && (if success then c == target else c < target && free < Cost(level, c))
    ensures sum == 0 <==> free0 < Cost(level, n)
    ensures !Hazard(test, level, n, free0)
  {
    LoopDone(level, n, target, first, last, i, c, success);
    if !success {
      FailedCost(level, c, i, free);
    }
    FinishHazard(test, level, n, target, first, last, had, free0);
  }

  lemma {:induction false} FinishTree(before: Image, free0: set<int>, p: int, b: int, was: seq<Tree>, img: Image,
                                      free: set<int>, ptrs: seq<int>, img': Image, level: nat, n: int, c: int)
    requires level > 0 && |before| > 0 && 0 <= n <= c && 0 < c <= IndirectCount(level)
    requires Growing(before, free0, TreeOf(before, p, level), b, was, img, free, ptrs, level, n, c)
    requires Shape(TreeOf(before, p, level), level, n)
    requires n > 0 ==> TreeOf(before, p, level) == Node(b, was)
    requires Clean(free0, TreeOf(before, p, level), DataStart(before), |before|)
    requires 0 <= b < |img| && img' == img[b := Indirect(ptrs)]
    ensures Extended(before, free0, p, img', free, b, level, n, c)
    ensures SameBut(before, img', free0, p, level)
  {
    EndOfLoop(before, free0, p, b, was, img, free, ptrs, img', level, n, c);
  }

  /** A loop whose first child is hazardous belongs to a call that is. */
  lemma {:induction false} FinishHazard(test: ReleaseTest, level: nat, n: int, target: int, first: int, last: int,
                                        had: nat, free0: nat)
    requires Span(level, n, target, first, last) && had == if n == 0 then free0 - 1 else free0
    ensures had < Cost(level - 1, Share(n, level, first)) <==> free0 < Cost(level, n)
    ensures Hazard(test, level, n, free0)
        <==> n > 0 && test.StartIdxIsZero? && free0 < Cost(level, n)
             && (first == 0 || Hazard(test, level - 1, Share(n, level, first), had))
    ensures n == 0 ==> !Hazard(test, level - 1, Share(n, level, first), had)
  {
    FirstIsChild(level, n, target, first, last);
  }

  /** Nothing could be added below a new block: it is given back. */
  lemma {:induction false} FinishReleased(before: Image, v0: View, p: int, test: ReleaseTest, level: nat, n: int,
                                          target: int, first: int, last: int, b: int, was: seq<Tree>, had: nat,
                                          img: Image, v: View, ptrs: seq<int>, i: int, img': Image, v': View)
    requires Span(level, n, target, first, last) && |before| > 0 && n == 0
    requires LoopGood(before, v0.free, TreeOf(before, p, level), test, level, n, target, first, last, b, was, had, img,
                      v.free, ptrs, i, n, false)
    requires TreeOf(before, p, level) == Nil && had == |v0.free| - 1
    requires v == v0.(chain := v.chain, free := v.free) && b !in v.free
    requires Mounted(img', v') && v' == v.(chain := v'.chain, free := v.free + {b}) && ListOnly(img, img', v'.free)
    requires |img'| == |before| && DataStart(img') == DataStart(before)
    ensures GrowResult(before, v0, p, img', v', EOF, level, n, target, test, false, 0)
  {
    LoopDone(level, n, target, first, last, i, n, false);
    FailedCost(level, n, i, |v.free|);
    FinishHazard(test, level, n, target, first, last, had, |v0.free|);
    FinishNil(before, v0.free, p, b, was, img, v.free, ptrs, img', level, n);
  }

  lemma {:induction false} FinishNil(before: Image, free0: set<int>, p: int, b: int, was: seq<Tree>, img: Image,
                                     free: set<int>, ptrs: seq<int>, img': Image, level: nat, n: int)
    requires level > 0 && TreeOf(before, p, level) == Nil && b !in free && n == 0
    requires Growing(before, free0, Nil, b, was, img, free, ptrs, level, n, n)
    requires ListOnly(img, img', free + {b})
    ensures Extended(before, free0, p, img', free + {b}, EOF, level, n, n + 0)
    ensures SameBut(before, img', free0, p, level)
  {
    assert Look(0);
    NoChildren(before, free0, Nil, b, was, img, free, ptrs, level);
    forall x | 0 < x < |before| && x !in free0 ensures img'[x] == before[x] {
      assert Conserved(free0, Nil, free + {b}, Nil, x);
    }
  }

  /** What both ways of going wrong have in common when the loop is over. */
  ghost predicate Damaged(before: Image, free0: set<int>, t0: Tree, b: int, img: Image, free: set<int>, ptrs: seq<int>,
                          level: nat)
    requires level > 0
  {
    forall u :: Look(u) ==>
      && Same(before, img, free0, t0)
      && NoneMore(free0, t0, free, Node(b, Forest(img, ptrs, level - 1)))
  }

  lemma {:induction false} GoodIsNoMore(before: Image, free0: set<int>, t0: Tree, b: int, was: seq<Tree>, img: Image,
                                        free: set<int>, ptrs: seq<int>, level: nat, n: int, c: int)
    requires level > 0 && Growing(before, free0, t0, b, was, img, free, ptrs, level, n, c)
    ensures Damaged(before, free0, t0, b, img, free, ptrs, level)
  {
    assert Look(0);
    var whole := Node(b, Forest(img, ptrs, level - 1));
    forall x ensures NotMore(free0, t0, free, whole, x) {
      assert Conserved(free0, t0, free, whole, x);
    }
  }

  /** The block itself is released although data below it is in use. */
  lemma {:induction false} FinishLost(before: Image, free0: set<int>, p: int, b: int, img: Image, free: set<int>,
                                      ptrs: seq<int>, img': Image, level: nat, n: int)
    requires level > 0 && n > 0 && b !in free
    requires Damaged(before, free0, TreeOf(before, p, level), b, img, free, ptrs, level)
    requires ListOnly(img, img', free + {b})
    ensures Broke(before, free0, p, img', free + {b}, EOF, level, n)
    ensures SameBut(before, img', free0, p, level)
  {
    assert Look(0);
    var t0 := TreeOf(before, p, level);
    var whole := Node(b, Forest(img, ptrs, level - 1));
    forall x ensures NotMore(free0, t0, free + {b}, Nil, x) {
      assert NotMore(free0, t0, free, whole, x);
    }
    forall x | 0 < x < |before| && x !in free0 && Count(t0, x) == 0 ensures img'[x] == before[x] {
      assert NotMore(free0, t0, free + {b}, Nil, x);
    }
  }

  /** A child was released although data below it is in use; the block is written back. */
  lemma {:induction false} FinishHole(before: Image, free0: set<int>, p: int, test: ReleaseTest, first: int, had: nat,
                                      b: int, img: Image, free: set<int>, ptrs: seq<int>, img': Image, level: nat,
                                      n: int, i: int)
    requires level > 0 && n > 0 && |before| > 0
    requires LoopBad(before, free0, TreeOf(before, p, level), test, level, n, first, b, had, img, free, ptrs, i, n,
                     false)
    requires Clean(free0, TreeOf(before, p, level), DataStart(before), |before|)
    requires 0 <= b < |img| && img' == img[b := Indirect(ptrs)]
    ensures Broke(before, free0, p, img', free, b, level, n)
    ensures SameBut(before, img', free0, p, level)
  {
    assert Look(0);
    var t0 := TreeOf(before, p, level);
    var ts := Forest(img, ptrs, level - 1);
    assert NotMore(free0, t0, free, Node(b, ts), b) && Sole(free0, t0, DataStart(before), |before|, b);
    NodeWritten(img, img', b, ptrs, level);
    assert ts[first] == TreeOf(img, ptrs[first], level - 1);
  }

  /** What the block and the loop have to do with each other, whichever way the loop ended. */
  ghost predicate Ended(before: Image, v0: View, p: int, test: ReleaseTest, level: nat, n: int, target: int, first: int,
                        last: int, b: int, was: seq<Tree>, had: nat, img: Image, v: View, ptrs: seq<int>, i: int,
                        c: int, success: bool) {
    && Span(level, n, target, first, last) && |before| > 0 && |img| == |before| && DataStart(img) == DataStart(before)
    && Shape(TreeOf(before, p, level), level, n)
    && (n > 0 ==> TreeOf(before, p, level) == Node(b, was))
    && had == (if n == 0 then |v0.free| - 1 else |v0.free|)
    && Clean(v0.free, TreeOf(before, p, level), DataStart(before), |before|)
    && Mounted(img, v) && v == v0.(chain := v.chain, free := v.free)
    && !(i <= last && success)
    && (LoopGood(before, v0.free, TreeOf(before, p, level), test, level, n, target, first, last, b, was, had, img,
                 v.free, ptrs, i, c, success)
        || LoopBad(before, v0.free, TreeOf(before, p, level), test, level, n, first, b, had, img, v.free, ptrs, i, c,
                   success))
  }

  /** The block is still the call's own. */
  lemma {:induction false} StillOwned(before: Image, v0: View, p: int, test: ReleaseTest, level: nat, n: int,
                                      target: int, first: int, last: int, b: int, was: seq<Tree>, had: nat, img: Image,
                                      v: View, ptrs: seq<int>, i: int, c: int, success: bool)
    requires Ended(before, v0, p, test, level, n, target, first, last, b, was, had, img, v, ptrs, i, c, success)
    ensures DataStart(before) <= b < |before| && b !in v.free
    ensures Damaged(before, v0.free, TreeOf(before, p, level), b, img, v.free, ptrs, level)
  {
    var t0 := TreeOf(before, p, level);
    if LoopGood(before, v0.free, t0, test, level, n, target, first, last, b, was, had, img, v.free, ptrs, i, c,
                success) {
      GoodIsNoMore(before, v0.free, t0, b, was, img, v.free, ptrs, level, n, c);
    }
    DamagedOwned(before, v0.free, t0, b, img, v.free, ptrs, level);
  }

  lemma {:induction false} DamagedOwned(before: Image, free0: set<int>, t0: Tree, b: int, img: Image, free: set<int>,
                                        ptrs: seq<int>, level: nat)
    requires level > 0 && Damaged(before, free0, t0, b, img, free, ptrs, level)
    requires Clean(free0, t0, DataStart(before), |before|)
    ensures DataStart(before) <= b < |before| && b !in free
  {
    assert Look(0);
    assert NotMore(free0, t0, free, Node(b, Forest(img, ptrs, level - 1)), b);
    assert Sole(free0, t0, DataStart(before), |before|, b);
  }

  lemma {:induction false} AfterRelease(before: Image, v0: View, p: int, test: ReleaseTest, level: nat, n: int,
                                        target: int, first: int, last: int, b: int, was: seq<Tree>, had: nat,
                                        img: Image, v: View, ptrs: seq<int>, i: int, img': Image, v': View)
    requires Ended(before, v0, p, test, level, n, target, first, last, b, was, had, img, v, ptrs, i, n, false)
    requires if test.StartIdxIsZero? then first == 0 else n == 0
    requires Mounted(img', v') && v' == v.(chain := v'.chain, free := v.free + {b}) && ListOnly(img, img', v'.free)
    ensures GrowResult(before, v0, p, img', v', EOF, level, n, target, test, false, 0)
    ensures Hazard(test, level, n, |v0.free|) <==> n > 0
  {
    StillOwned(before, v0, p, test, level, n, target, first, last, b, was, had, img, v, ptrs, i, n, false);
    FinishHazard(test, level, n, target, first, last, had, |v0.free|);
    if n == 0 {
      FinishReleased(before, v0, p, test, level, n, target, first, last, b, was, had, img, v, ptrs, i, img', v');
    } else {
      if !LoopBad(before, v0.free, TreeOf(before, p, level), test, level, n, first, b, had, img, v.free, ptrs, i, n,
                  false) {
        LoopDone(level, n, target, first, last, i, n, false);
      }
      FinishLost(before, v0.free, p, b, img, v.free, ptrs, img', level, n);
    }
  }

  lemma {:induction false} AfterWrite(before: Image, v0: View, p: int, test: ReleaseTest, level: nat, n: int,
                                      target: int, first: int, last: int, b: int, was: seq<Tree>, had: nat, img: Image,
                                      v: View, ptrs: seq<int>, i: int, c: int, success: bool, img': Image, sum: int,
                                      lost: bool)
    requires Ended(before, v0, p, test, level, n, target, first, last, b, was, had, img, v, ptrs, i, c, success)
    requires c == n + sum
    requires !success && sum == 0 ==> !(if test.StartIdxIsZero? then first == 0 else n == 0)
    requires DataStart(img) <= b < |img| && img' == img[b := Indirect(ptrs)] && Mounted(img', v)
    requires lost ==> LoopBad(before, v0.free, TreeOf(before, p, level), test, level, n, first, b, had, img, v.free,
                              ptrs, i, c, success)
    requires !lost ==> LoopGood(before, v0.free, TreeOf(before, p, level), test, level, n, target, first, last, b, was,
                                had, img, v.free, ptrs, i, c, success)
    ensures GrowResult(before, v0, p, img', v, b, level, n, target, test, success, sum)
    ensures Hazard(test, level, n, |v0.free|) <==> lost
  {
    var t0 := TreeOf(before, p, level);
    FinishHazard(test, level, n, target, first, last, had, |v0.free|);
    if !lost {
      LoopDone(level, n, target, first, last, i, c, success);
      FinishGood(before, v0, p, test, level, n, target, first, last, b, was, had, img, v, ptrs, i, c, success, img',
                 sum);
    } else {
      FinishHole(before, v0.free, p, test, first, had, b, img, v.free, ptrs, img', level, n, i);
    }
  }

  // ----- the procedure -----

  /** The children to visit for data positions `from` to `to` of the file. */
  method ChildRange(curblock: int, level: nat, from: int, to: int) returns (startIdx: int, endIdx: int)
    requires level > 0 && from < to && from < curblock + IndirectCount(level) && curblock < to
    ensures Span(level, Within(from - curblock, IndirectCount(level)), Within(to - curblock, IndirectCount(level)),
                 startIdx, endIdx)
  {
    var subCount := IndirectCount(level - 1);
    var endblock := curblock + N * subCount;
    startIdx := 0;
    endIdx := N - 1;
    if curblock < from {
      startIdx := startIdx + (from - curblock) / subCount;
    }
    if endblock > to {
      endIdx := endIdx - (endblock - to) / subCount;
    }
    StartIs(level, N);
    Range(level, from - curblock, to - curblock, startIdx, endIdx);
  }

  /** The first data block below child `i`. */
  method ChildBlock(curblock: int, level: nat, i: nat) returns (b: int)
    requires level > 0
    ensures b == curblock + Start(level, i)
  {
    b := curblock + IndirectCount(level - 1) * i;
    StartIs(level, i);
  }

  /** What the loop over the children starts from, and does not change. */
  ghost predicate GrowPlan(before: Image, free0: set<int>, t0: Tree, level: nat, curblock: int, oldc: int, newc: int,
                           n: int, target: int, first: int, last: int)
    requires level > 0
  {
    forall u :: Look(u) ==>
      && n == Within(oldc - curblock, IndirectCount(level)) && target == Within(newc - curblock, IndirectCount(level))
      && 0 <= oldc < newc && oldc < curblock + IndirectCount(level) && curblock < newc
      && Span(level, n, target, first, last)
      && |before| > 0 && Clean(free0, t0, DataStart(before), |before|)
  }

  lemma {:induction false} GrowPlanMeans(before: Image, free0: set<int>, t0: Tree, level: nat, curblock: int, oldc: int,
                                         newc: int, n: int, target: int, first: int, last: int)
    requires level > 0 && GrowPlan(before, free0, t0, level, curblock, oldc, newc, n, target, first, last)
    ensures n == Within(oldc - curblock, IndirectCount(level))
    ensures target == Within(newc - curblock, IndirectCount(level))
    ensures 0 <= oldc < newc && oldc < curblock + IndirectCount(level) && curblock < newc
    ensures Span(level, n, target, first, last) && 0 <= first <= last + 1 && last < N
    ensures |before| > 0 && Clean(free0, t0, DataStart(before), |before|)
  {
    assert Look(0);
  }

  /** The loop over the children. `n` and `target` are the positions to start from and to reach,
      counted from the block's own first. */
  method GrowChildrenOf(d: Disk, blockno: int, indirectData: seq<int>, curblock: int, level: nat, oldc: int, newc: int,
                        test: ReleaseTest, startIdx: int, endIdx: int, ghost n: int, ghost target: int,
                        ghost img0: Image, ghost v0: View, ghost t0: Tree, ghost was: seq<Tree>, ghost had: nat)
    returns (success: bool, indirectData': seq<int>, sum: int, lost: bool, ghost i: int, ghost c: int)
    requires level > 0 && GrowPlan(img0, v0.free, t0, level, curblock, oldc, newc, n, target, startIdx, endIdx)
    requires 0 <= startIdx <= endIdx + 1 <= N
    requires d.Valid() && |img0| > 0 && |d.Image()| == |img0| && DataStart(d.Image()) == DataStart(img0)
    requires d.view == v0.(chain := d.view.chain, free := d.view.free)
    requires LoopState(false, img0, v0.free, t0, test, level, n, target, startIdx, endIdx, blockno, was, had, d.Image(),
                       d.view.free, indirectData, startIdx, n, true)
    modifies d`view, d.data
    decreases level, 1
    ensures d.Valid() && d.view == v0.(chain := d.view.chain, free := d.view.free)
    ensures |d.Image()| == |img0| && DataStart(d.Image()) == DataStart(img0)
    ensures c == n + sum && !(i <= endIdx && success)
    ensures LoopState(lost, img0, v0.free, t0, test, level, n, target, startIdx, endIdx, blockno, was, had,
                      d.Image(), d.view.free, indirectData', i, c, success)
  {
    sum := 0;
    success, lost := true, false;
    indirectData' := indirectData;
    var k := startIdx;
    c := n;
    while k <= endIdx && success
      invariant k >= startIdx && c == n + sum
      invariant d.Valid() && d.view == v0.(chain := d.view.chain, free := d.view.free)
      invariant |d.Image()| == |img0| && DataStart(d.Image()) == DataStart(img0)
      invariant LoopState(lost, img0, v0.free, t0, test, level, n, target, startIdx, endIdx, blockno, was, had,
                          d.Image(), d.view.free, indirectData', k, c, success)
      decreases endIdx - k
    {
      var child, more;
      success, child, more, lost := GrowChildAt(d, indirectData', k, curblock, level, oldc, newc, test, startIdx,
                                                endIdx,
                                                blockno, n, target, img0, v0, t0, was, had, c);
      indirectData' := indirectData'[k := child];
      k, c, sum := k + 1, c + more, sum + more;
    }
    i := k;
  }

  method GrowChildAt(d: Disk, indirectData: seq<int>, i: int, curblock: int, level: nat, oldc: int, newc: int,
                     test: ReleaseTest, ghost startIdx: int, ghost endIdx: int, ghost blockno: int, ghost n: int,
                     ghost target: int, ghost img0: Image, ghost v0: View, ghost t0: Tree, ghost was: seq<Tree>,
                     ghost had: nat, ghost c: int)
    returns (success: bool, child: int, more: int, lost: bool)
    requires level > 0 && GrowPlan(img0, v0.free, t0, level, curblock, oldc, newc, n, target, startIdx, endIdx)
    requires 0 <= startIdx <= i <= endIdx < N
    requires d.Valid() && |img0| > 0 && |d.Image()| == |img0| && DataStart(d.Image()) == DataStart(img0)
    requires d.view == v0.(chain := d.view.chain, free := d.view.free)
    requires LoopState(false, img0, v0.free, t0, test, level, n, target, startIdx, endIdx, blockno, was, had, d.Image(),
                       d.view.free, indirectData, i, c, true)
    modifies d`view, d.data
    decreases level, 0
    ensures d.Valid() && d.view == v0.(chain := d.view.chain, free := d.view.free)
    ensures |d.Image()| == |img0| && DataStart(d.Image()) == DataStart(img0)
    ensures LoopState(lost, img0, v0.free, t0, test, level, n, target, startIdx, endIdx, blockno, was, had,
                      d.Image(), d.view.free, indirectData[i := child], i + 1, c + more, success)
  {
    ghost var img, v := d.Image(), d.view;
    GrowPlanMeans(img0, v0.free, t0, level, curblock, oldc, newc, n, target, startIdx, endIdx);
    ghost var free := v.free;
    LoopMeans(false, img0, v0.free, t0, test, level, n, target, startIdx, endIdx, blockno, was, had, img, free,
              indirectData, i, c, true);
    LoopReady(img0, v0.free, t0, level, n, target, startIdx, endIdx, blockno, was, img, v, indirectData, i, c);
    var childBlock := ChildBlock(curblock, level, i);
    ShareWithin(oldc, curblock, childBlock, level, i, n);
    ShareWithin(newc, curblock, childBlock, level, i, target);
    CountingHere(level, n, target, startIdx, endIdx, i, c);
    success, child, more, lost := IndirectGrow(d, indirectData[i], childBlock, level - 1, oldc, newc, test,
                                               Share(n, level, i), Share(target, level, i));
    if lost {
      OnlyFirst(test, level, n, target, startIdx, endIdx, had, |free|, i, c);
      LoopStepBad(img0, v0.free, t0, test, level, n, target, startIdx, blockno, was, had, img, v, indirectData,
                  d.Image(), d.view, child, success, more);
    } else {
      LoopStepGood(img0, v0.free, t0, test, level, n, target, startIdx, endIdx, blockno, was, had, img, free,
                   indirectData, i, c,
                   d.Image(), d.view.free, child, success, more);
    }
  }

  lemma {:induction false} LoopPrepared(before: Image, v0: View, t0: Tree, dest: int, b: int, img: Image, v: View,
                                        ptrs: seq<int>, test: ReleaseTest, level: nat, curblock: int, oldc: int,
                                        newc: int, n: int, target: int, first: int, last: int, was: seq<Tree>, had: nat)
    requires level > 0 && MayGrow(before, v0, dest, level, n, target) && t0 == TreeOf(before, dest, level)
    requires n == Within(oldc - curblock, IndirectCount(level))
    requires target == Within(newc - curblock, IndirectCount(level))
    requires 0 <= oldc < newc && oldc < curblock + IndirectCount(level) && curblock < newc
    requires Span(level, n, target, first, last) && was == Forest(img, ptrs, level - 1) && had == |v.free|
    requires if dest == EOF then
        && |ptrs| == N && (forall j :: 0 <= j < N ==> ptrs[j] == EOF)
        && ListOnly(before, img, v0.free) && b in v0.free && v.free == v0.free - {b}
      else
        b == dest && img == before && v.free == v0.free && img[dest].Indirect? && ptrs == img[dest].ptrs
    ensures |before| > 0 && LoopState(false, before, v0.free, t0, test, level, n, target, first, last, b, was, had, img,
                                      v.free, ptrs, first,
                      n, true)
    ensures GrowPlan(before, v0.free, t0, level, curblock, oldc, newc, n, target, first, last)
    ensures dest == EOF ==> Sole(v0.free, t0, DataStart(before), |before|, b)
  {
    if dest == EOF {
      assert Sole(v0.free, t0, DataStart(before), |before|, b);
      StartFromNew(before, v0.free, b, img, v.free, ptrs, level);
    } else {
      StartFromOld(before, v0.free, dest, level, n);
    }
    LoopBegins(before, v0.free, t0, test, level, n, target, first, last, b, was, had, img, v.free, ptrs);
  }

  /** Extends the tree at `dest` from `oldc` towards `newc` data blocks of the file. `lost` says that a
      block in use has been released. */
  method IndirectGrow(d: Disk, dest: int, curblock: int, level: nat, oldc: int, newc: int, test: ReleaseTest,
                      ghost n: int, ghost target: int)
    returns (ok: bool, dest': int, added: int, lost: bool)
    requires 0 <= oldc < newc && oldc < curblock + IndirectCount(level) && curblock < newc
    requires n == Within(oldc - curblock, IndirectCount(level))
    requires target == Within(newc - curblock, IndirectCount(level))
    requires MayGrow(d.Image(), d.view, dest, level, n, target)
    modifies d`view, d.data
    decreases level, 2
    ensures GrowResult(old(d.Image()), old(d.view), dest, d.Image(), d.view, dest', level, n, target, test, ok, added)
    ensures lost <==> Hazard(test, level, n, |old(d.view).free|)
  {
    ghost var img0, v0, t0 := d.Image(), d.view, TreeOf(d.Image(), dest, level);
    var blockno := dest;
    dest' := dest;
    var indirectData := [];
    if blockno == EOF {
      blockno := d.BlockAllocate();
      if blockno < 0 {
        NoSpace(img0, v0, level, n, target, test);
        return false, EOF, 0, false;
      }
      dest' := blockno;
      indirectData := seq(N, _ => EOF);
    } else if level != 0 {
      var block := d.Read(blockno);
      indirectData := block.ptrs;
    } else {
      assert false;
    }
    if level == 0 {
      LeafAdded(img0, v0, n, target, test, d.Image(), d.view, blockno);
      return true, dest', 1, false;
    }

    var startIdx, endIdx := ChildRange(curblock, level, oldc, newc);
    ghost var was, had := Forest(d.Image(), indirectData, level - 1), |d.view.free|;
    LoopPrepared(img0, v0, t0, dest, blockno, d.Image(), d.view, indirectData, test, level, curblock, oldc, newc, n,
                 target,
                 startIdx, endIdx, was, had);
    var success, sum;
    ghost var i, c;
    success, indirectData, sum, lost, i, c :=
      GrowChildrenOf(d, blockno, indirectData, curblock, level, oldc, newc, test, startIdx, endIdx, n, target, img0, v0,
                     t0, was, had);
    ghost var img1, v1 := d.Image(), d.view;
    LoopMeans(lost, img0, v0.free, t0, test, level, n, target, startIdx, endIdx, blockno, was, had, img1, v1.free,
              indirectData, i, c, success);
    StillOwned(img0, v0, dest, test, level, n, target, startIdx, endIdx, blockno, was, had, img1, v1, indirectData, i,
               c, success);
    var release := match test case StartIdxIsZero => startIdx == 0 case BlockIsNew => dest == EOF;
    if !success && release && sum == 0 {
      d.BlockFree(blockno);
      AfterRelease(img0, v0, dest, test, level, n, target, startIdx, endIdx, blockno, was, had, img1, v1, indirectData,
                   i, d.Image(), d.view);
      return false, EOF, 0, dest != EOF;
    }
    d.WriteOwned(blockno, Indirect(indirectData));
    AfterWrite(img0, v0, dest, test, level, n, target, startIdx, endIdx, blockno, was, had, img1, v1, indirectData, i,
               c, success, d.Image(), sum, lost);
    return success, dest', sum, lost;
  }

  // ----- the two release tests compared -----

  /** The source's test is safe for single indirect blocks, and for blocks none of whose data
      is in use yet. */
  lemma {:induction false} TestsAgree(test: ReleaseTest, level: nat, curblock: int, oldc: int, n: int, free: nat)
    requires n == Within(oldc - curblock, IndirectCount(level)) && (level <= 1 || curblock >= oldc)
    ensures !Hazard(test, level, n, free)
  {
  }

  /** A double indirect block with one data block, on a full disk: the source's test releases it
      while the data is in use. */
  lemma {:induction false} TestsDiffer()
    requires N >= 2
    ensures Hazard(StartIdxIsZero, 2, 1, 0) && !Hazard(BlockIsNew, 2, 1, 0)
  {
    CostPositive(2, 1);
    Power(1);
  }

  /** When a block is at risk, at the levels that occur: some block on the way to position `n`
      has data in its first child only, and that child is not full. */
  lemma {:induction false} HazardLevels(n: int)
    ensures FirstChildPartial(2, n) <==> 0 < n < N
    ensures 0 <= n < IndirectCount(3) ==>
      (FirstChildPartial(3, n) <==> n > 0 && (n < IndirectCount(2) || 0 < n % IndirectCount(2) < N))
  {
    IndirectCounts();
    assert !FirstChildPartial(1, Rest(2, n));
    if 0 <= n < IndirectCount(3) {
      ChildIsQuotient(3, n);
      assert !FirstChildPartial(1, Rest(2, Rest(3, n)));
      assert FirstChildPartial(2, Rest(3, n)) <==> 0 < Rest(3, n) < N;
    }
  }
}
