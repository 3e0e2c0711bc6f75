// The tree of pointers below one inode slot, as a function of the disk image.

module Trees {
  import opened Geometry
  import opened Blocks

  datatype Tree = Nil | Leaf(b: int) | Node(b: int, kids: seq<Tree>)

  /** The tree the image stores under pointer `p` at the given indirection level. */
  ghost function TreeOf(img: Image, p: int, level: nat): Tree
    decreases level
  {
    if p == EOF then Nil
    else if level == 0 then Leaf(p)
    else if 0 <= p < |img| && img[p].Indirect? && |img[p].ptrs| == N then
      Node(p, seq(N, i requires 0 <= i < N => TreeOf(img, img[p].ptrs[i], level - 1)))
    else Leaf(p)
  }

  ghost function Forest(img: Image, ptrs: seq<int>, level: nat): (ts: seq<Tree>)
    ensures |ts| == |ptrs|
  {
    seq(|ptrs|, i requires 0 <= i < |ptrs| => TreeOf(img, ptrs[i], level))
  }

  /** How many times block `x` occurs in a tree, as an indirect block or as data. */
  ghost function Count(t: Tree, x: int): nat {
    match t
    case Nil => 0
    case Leaf(b) => One(b, x)
    case Node(b, kids) => One(b, x) + CountAll(kids, x)
  }

  ghost function CountAll(ts: seq<Tree>, x: int): nat {
    if |ts| == 0 then 0 else CountAll(ts[..|ts| - 1], x) + Count(ts[|ts| - 1], x)
  }

  /** The one shape of a tree that holds exactly the first `n` data positions: a pointer is
      set if and only if some data position under it is below `n`. */
  ghost predicate Shape(t: Tree, level: nat, n: int)
    decreases level
  {
    if n <= 0 then t == Nil
    else if level == 0 then t.Leaf?
    else
      && t.Node? && |t.kids| == N
      && forall i :: 0 <= i < N ==> Shape(t.kids[i], level - 1, Share(n, level, i))
  }

  /** How many of the first `n` positions under a level-`level` block fall to child `i`. */
  ghost function Share(n: int, level: nat, i: int): (r: int)
    requires level > 0
    ensures 0 <= r <= IndirectCount(level - 1)
  {
    Within(n - Start(level, i), IndirectCount(level - 1))
  }

  /** The tree cut back to its first `n` data positions. */
  ghost function Prune(t: Tree, level: nat, n: int): Tree
    decreases level
  {
    if n <= 0 then Nil
    else if level == 0 || !t.Node? then t
    else Node(t.b, seq(|t.kids|, i requires 0 <= i < |t.kids| => Prune(t.kids[i], level - 1, Share(n, level, i))))
  }

  /** The data block at position `k`. */
  ghost function LeafAt(t: Tree, level: nat, k: int): int
    decreases level
  {
    match t
    case Nil => EOF
    case Leaf(b) => b
    case Node(_, kids) =>
      if level > 0 && ChildOf(level, k) < |kids|
      then LeafAt(kids[ChildOf(level, k)], level - 1, Rest(level, k))
      else EOF
  }

  // ----- arithmetic of one level -----

  /** A position below `n` is below its child's share. */
  lemma {:induction false} ShareHolds(n: int, level: nat, k: int)
    requires level > 0 && 0 <= k < n <= IndirectCount(level)
    ensures 0 <= Rest(level, k) < Share(n, level, ChildOf(level, k))
  {
    ChildFromIs(level, k, N - 1);
  }

  /** Moving the count from `c` to `e` inside child `i` leaves every other child's share alone. */
  lemma {:induction false} ShareStep(c: int, e: int, level: nat, i: nat, j: nat)
    requires level > 0
    requires Start(level, i) <= c <= Start(level, i + 1)
    requires Start(level, i) <= e <= Start(level, i + 1)
    ensures Share(c, level, i) == c - Start(level, i)
    ensures j != i ==> Share(c, level, j) == Share(e, level, j)
  {
    if j < i {
      StartMono(level, j, i);
    } else if j > i {
      StartMono(level, i, j);
    }
  }

  /** Counting positions from the start of the parent or of the file comes to the same. */
  lemma {:induction false} ShareWithin(x: int, curblock: int, child: int, level: nat, i: nat, n: int)
    requires level > 0 && i < N && child == curblock + Start(level, i)
    requires n == Within(x - curblock, IndirectCount(level))
    ensures Share(n, level, i) == Within(x - child, IndirectCount(level - 1))
  {
    StartMono(level, i, N);
  }

  // ----- blocks -----

  /** Replacing one tree of a forest exchanges exactly its blocks. */
  lemma {:induction false} CountUpdate(ts: seq<Tree>, i: nat, t: Tree, x: int)
    requires i < |ts|
    ensures CountAll(ts[i := t], x) + Count(ts[i], x) == CountAll(ts, x) + Count(t, x)
  {
    var n := |ts| - 1;
    if i == n {
      assert ts[i := t][..n] == ts[..n];
    } else {
      assert ts[i := t][..n] == ts[..n][i := t];
      CountUpdate(ts[..n], i, t, x);
    }
  }

  lemma {:induction false} CountMember(ts: seq<Tree>, i: nat, x: int)
    requires i < |ts|
    ensures Count(ts[i], x) <= CountAll(ts, x)
  {
    CountUpdate(ts, i, Nil, x);
  }

  lemma {:induction false} CountPair(ts: seq<Tree>, i: nat, j: nat, x: int)
    requires i < |ts| && j < |ts| && i != j
    ensures Count(ts[i], x) + Count(ts[j], x) <= CountAll(ts, x)
  {
    CountUpdate(ts, i, Nil, x);
    CountMember(ts[i := Nil], j, x);
  }

  lemma {:induction false} NilForest(ts: seq<Tree>, x: int)
    requires forall i :: 0 <= i < |ts| ==> ts[i] == Nil
    ensures CountAll(ts, x) == 0
  {
    if |ts| > 0 {
      NilForest(ts[..|ts| - 1], x);
    }
  }

  /** Neither aliased nor free: block `x` is at most once in the tree or on the free list,
      and if it is then it lies in the data area. */
  ghost predicate Sole(free: set<int>, t: Tree, lo: int, hi: int, x: int) {
    && In(free, x) + Count(t, x) <= 1
    && (In(free, x) + Count(t, x) > 0 ==> lo <= x < hi)
  }

  ghost predicate Clean(free: set<int>, t: Tree, lo: int, hi: int) {
    forall x :: Sole(free, t, lo, hi, x)
  }

  /** Blocks move between the free list and the tree, but none appears or disappears. */
  ghost predicate Conserved(free: set<int>, t: Tree, free': set<int>, t': Tree, x: int) {
    In(free', x) + Count(t', x) == In(free, x) + Count(t, x)
  }

  ghost predicate Conserves(free: set<int>, t: Tree, free': set<int>, t': Tree) {
    forall x :: Conserved(free, t, free', t', x)
  }

  /** The images agree outside the tree and the free blocks, and but for the free-block
      list in the superblock. */
  ghost predicate Same(before: Image, after: Image, free: set<int>, t: Tree) {
    && |before| == |after|
    && (|before| > 0 ==> SuperKept(before[0], after[0]))
    && forall x {:trigger after[x]} {:trigger before[x]} ::
         0 < x < |before| && x !in free && Count(t, x) == 0 ==> after[x] == before[x]
  }

  /** The tree only depends on its own blocks. */
  lemma {:induction false} TreeFrame(before: Image, after: Image, p: int, level: nat)
    requires |before| == |after|
    requires forall x :: 0 <= x < |before| && Count(TreeOf(before, p, level), x) > 0 ==> after[x] == before[x]
    ensures TreeOf(after, p, level) == TreeOf(before, p, level)
    decreases level
  {
    var t := TreeOf(before, p, level);
    if t.Node? {
      assert Count(t, p) > 0;
      var ptrs := before[p].ptrs;
      forall i | 0 <= i < N ensures TreeOf(after, ptrs[i], level - 1) == TreeOf(before, ptrs[i], level - 1) {
        forall x | 0 <= x < |before| && Count(TreeOf(before, ptrs[i], level - 1), x) > 0 ensures after[x] == before[x] {
          CountMember(t.kids, i, x);
          assert Count(t, x) > 0;
        }
        TreeFrame(before, after, ptrs[i], level - 1);
      }
      assert TreeOf(after, p, level).kids == t.kids;
    } else if p != EOF && level > 0 {
      assert Count(t, p) > 0;
    }
  }

  /** Writing inside child `i`, or in free blocks, leaves the other children alone. */
  lemma {:induction false} ForestFrame(before: Image, after: Image, ptrs: seq<int>, level: nat, free: set<int>, lo: int,
                                       i: nat, p: int)
    requires i < |ptrs| && lo > 0
    requires forall x :: In(free, x) + CountAll(Forest(before, ptrs, level), x) <= 1
    requires forall x :: CountAll(Forest(before, ptrs, level), x) > 0 ==> lo <= x
    requires Same(before, after, free, TreeOf(before, ptrs[i], level))
    ensures Forest(after, ptrs[i := p], level) == Forest(before, ptrs, level)[i := TreeOf(after, p, level)]
  {
    var ts := Forest(before, ptrs, level);
    forall j | 0 <= j < |ptrs| && j != i ensures TreeOf(after, ptrs[j], level) == ts[j] {
      forall x | 0 <= x < |before| && Count(ts[j], x) > 0 ensures after[x] == before[x] {
        CountPair(ts, i, j, x);
      }
      TreeFrame(before, after, ptrs[j], level);
    }
  }

  // ----- shape -----

  lemma {:induction false} PruneId(t: Tree, level: nat, n: int)
    requires Shape(t, level, n)
    ensures Prune(t, level, n) == t
  {
    if n > 0 && level > 0 {
      forall i | 0 <= i < N ensures Prune(t.kids[i], level - 1, Share(n, level, i)) == t.kids[i] {
        PruneId(t.kids[i], level - 1, Share(n, level, i));
      }
      assert Prune(t, level, n).kids == t.kids;
    }
  }

  lemma {:induction false} PruneShape(t: Tree, level: nat, n: int, m: int)
    requires Shape(t, level, n) && m <= n
    ensures Shape(Prune(t, level, m), level, m)
  {
    if m > 0 && level > 0 {
      forall i | 0 <= i < N
        ensures Shape(Prune(t.kids[i], level - 1, Share(m, level, i)), level - 1, Share(m, level, i))
      {
        PruneShape(t.kids[i], level - 1, Share(n, level, i), Share(m, level, i));
      }
    }
  }

  lemma {:induction false} LeafAtPrune(t: Tree, level: nat, n: int, m: int, k: int)
    requires Shape(t, level, n) && 0 <= k < m <= n <= IndirectCount(level)
    ensures LeafAt(Prune(t, level, m), level, k) == LeafAt(t, level, k)
  {
    if level > 0 {
      var i := ChildOf(level, k);
      ShareHolds(m, level, k);
      ShareHolds(n, level, k);
      LeafAtPrune(t.kids[i], level - 1, Share(n, level, i), Share(m, level, i), Rest(level, k));
    }
  }

  lemma {:induction false} LeafAtMember(t: Tree, level: nat, n: int, k: int)
    requires Shape(t, level, n) && 0 <= k < n <= IndirectCount(level)
    ensures Count(t, LeafAt(t, level, k)) > 0
  {
    if level > 0 {
      var i := ChildOf(level, k);
      ShareHolds(n, level, k);
      CountMember(t.kids, i, LeafAt(t, level, k));
      LeafAtMember(t.kids[i], level - 1, Share(n, level, i), Rest(level, k));
    }
  }

  /** No aliasing: two data positions of a clean tree never share a block. */
  lemma {:induction false} LeafAtInjective(t: Tree, level: nat, n: int, k1: int, k2: int)
    requires Shape(t, level, n) && forall x :: Count(t, x) <= 1
    requires 0 <= k1 < n <= IndirectCount(level) && 0 <= k2 < n && k1 != k2
    ensures LeafAt(t, level, k1) != LeafAt(t, level, k2)
  {
    if level > 0 {
      var i, j := ChildOf(level, k1), ChildOf(level, k2);
      ShareHolds(n, level, k1);
      ShareHolds(n, level, k2);
      var x := LeafAt(t, level, k1);
      if i == j {
        forall y ensures Count(t.kids[i], y) <= 1 {
          CountMember(t.kids, i, y);
          assert Count(t, y) <= 1;
        }
        LeafAtInjective(t.kids[i], level - 1, Share(n, level, i), Rest(level, k1), Rest(level, k2));
      } else {
        LeafAtMember(t.kids[i], level - 1, Share(n, level, i), Rest(level, k1));
        LeafAtMember(t.kids[j], level - 1, Share(n, level, j), Rest(level, k2));
        CountPair(t.kids, i, j, x);
        assert Count(t, x) <= 1;
      }
    }
  }
}
