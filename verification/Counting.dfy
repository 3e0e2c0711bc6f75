// How many blocks a file takes, and how far a given number of free blocks goes.

module Counting {
  import opened Geometry
  import opened Blocks
  import opened Trees
  import opened FreeLists
  import opened IndirectGrow
  import opened Files
  import opened Resize

  // ----- the blocks of a tree as a set -----

  ghost function Holding(t: Tree): set<int> {
    match t
    case Nil => {}
    case Leaf(b) => {b}
    case Node(b, kids) => {b} + HoldingAll(kids)
  }

  ghost function HoldingAll(ts: seq<Tree>): set<int> {
    if |ts| == 0 then {} else HoldingAll(ts[..|ts| - 1]) + Holding(ts[|ts| - 1])
  }

  ghost function Size(t: Tree): nat {
    match t
    case Nil => 0
    case Leaf(_) => 1
    case Node(_, kids) => 1 + SizeAll(kids)
  }

  ghost function SizeAll(ts: seq<Tree>): nat {
    if |ts| == 0 then 0 else SizeAll(ts[..|ts| - 1]) + Size(ts[|ts| - 1])
  }

  lemma {:induction false} HoldingIs(t: Tree, x: int)
    ensures x in Holding(t) <==> Count(t, x) > 0
  {
    if t.Node? {
      HoldingAllIs(t.kids, x);
    }
  }

  lemma {:induction false} HoldingAllIs(ts: seq<Tree>, x: int)
    ensures x in HoldingAll(ts) <==> CountAll(ts, x) > 0
  {
    if |ts| > 0 {
      HoldingAllIs(ts[..|ts| - 1], x);
      HoldingIs(ts[|ts| - 1], x);
    }
  }

  lemma {:induction false} SizeOfUnion(a: set<int>, b: set<int>)
    requires forall x :: x in a ==> x !in b
    ensures |a + b| == |a| + |b|
  {
    forall x ensures x !in a * b {
    }
    assert a * b == {};
  }

  /** A tree in which no block occurs twice has as many blocks as its size says. */
  lemma {:induction false} HoldingSize(t: Tree)
    requires forall x :: Count(t, x) <= 1
    ensures |Holding(t)| == Size(t)
  {
    if t.Node? {
      forall x ensures CountAll(t.kids, x) <= 1 && (x == t.b ==> x !in HoldingAll(t.kids)) {
        assert Count(t, x) <= 1;
        HoldingAllIs(t.kids, x);
      }
      HoldingAllSize(t.kids);
      SizeOfUnion({t.b}, HoldingAll(t.kids));
    }
  }

  lemma {:induction false} HoldingAllSize(ts: seq<Tree>)
    requires forall x :: CountAll(ts, x) <= 1
    ensures |HoldingAll(ts)| == SizeAll(ts)
  {
    if |ts| > 0 {
      var rest, last := ts[..|ts| - 1], ts[|ts| - 1];
      forall x
        ensures CountAll(rest, x) <= 1 && Count(last, x) <= 1 && (x in HoldingAll(rest) ==> x !in Holding(last))
      {
        assert CountAll(ts, x) <= 1;
        HoldingAllIs(rest, x);
        HoldingIs(last, x);
      }
      HoldingAllSize(rest);
      HoldingSize(last);
      SizeOfUnion(HoldingAll(rest), Holding(last));
    }
  }

  lemma {:induction false} SizeWith(free: set<int>, t: Tree)
    requires forall x :: In(free, x) + Count(t, x) <= 1
    ensures |free + Holding(t)| == |free| + Size(t)
  {
    forall x ensures Count(t, x) <= 1 && (x in free ==> x !in Holding(t)) {
      assert In(free, x) + Count(t, x) <= 1;
      HoldingIs(t, x);
    }
    HoldingSize(t);
    SizeOfUnion(free, Holding(t));
  }

  /** Blocks that move between free list and tree are counted on both sides. */
  lemma {:induction false} SizeConserved(free: set<int>, t: Tree, free': set<int>, t': Tree)
    requires Conserves(free, t, free', t') && forall x :: In(free, x) + Count(t, x) <= 1
    ensures |free'| + Size(t') == |free| + Size(t)
  {
    forall x ensures In(free', x) + Count(t', x) <= 1 {
      assert Conserved(free, t, free', t', x) && In(free, x) + Count(t, x) <= 1;
    }
    forall x ensures x in free + Holding(t) <==> x in free' + Holding(t') {
      assert Conserved(free, t, free', t', x);
      HoldingIs(t, x);
      HoldingIs(t', x);
    }
    assert free + Holding(t) == free' + Holding(t');
    SizeWith(free, t);
    SizeWith(free', t');
  }

  // ----- the size of a shape -----

  /** Blocks of a tree that holds exactly its first `n` data positions. */
  ghost function ShapeSize(level: nat, n: int): nat
    decreases level, N + 1
  {
    if n <= 0 then 0 else if level == 0 then 1 else 1 + ShapeSum(level, n, N)
  }

  /** Blocks below the first `i` pointers of an indirect block. */
  ghost function ShapeSum(level: nat, n: int, i: nat): nat
    requires level > 0
    decreases level, i
  {
    if i == 0 then 0 else ShapeSum(level, n, i - 1) + ShapeSize(level - 1, Share(n, level, i - 1))
  }

  lemma {:induction false} SizeOfShape(t: Tree, level: nat, n: int)
    requires Shape(t, level, n)
    ensures Size(t) == ShapeSize(level, n)
    decreases level, N + 1
  {
    if n > 0 && level > 0 {
      SizeOfKids(t.kids, level, n, N);
      assert t.kids[..N] == t.kids;
    }
  }

  lemma {:induction false} SizeOfKids(kids: seq<Tree>, level: nat, n: int, i: nat)
    requires level > 0 && i <= |kids| == N
    requires forall j :: 0 <= j < N ==> Shape(kids[j], level - 1, Share(n, level, j))
    ensures SizeAll(kids[..i]) == ShapeSum(level, n, i)
    decreases level, i
  {
    if i > 0 {
      assert kids[..i][..i - 1] == kids[..i - 1];
      SizeOfKids(kids, level, n, i - 1);
      SizeOfShape(kids[i - 1], level - 1, Share(n, level, i - 1));
    }
  }

  lemma {:induction false} ShapeSumNone(level: nat, i: nat)
    requires level > 0
    ensures ShapeSum(level, 0, i) == 0
  {
    if i > 0 {
      ShapeSumNone(level, i - 1);
    }
  }

  /** Only child `c` has changed its share. */
  lemma {:induction false} ShapeSumStep(level: nat, n: int, m: int, c: nat, more: int, i: nat)
    requires level > 0
    requires forall j :: 0 <= j < i && j != c ==> Share(m, level, j) == Share(n, level, j)
    requires ShapeSize(level - 1, Share(m, level, c)) == ShapeSize(level - 1, Share(n, level, c)) + more
    ensures ShapeSum(level, m, i) == ShapeSum(level, n, i) + if c < i then more else 0
  {
    if i > 0 {
      ShapeSumStep(level, n, m, c, more, i - 1);
    }
  }

  /** The next position takes what it costs. */
  lemma {:induction false} ShapeSizeStep(level: nat, n: int, m: int)
    requires 0 <= n < IndirectCount(level) && m == n + 1
    ensures ShapeSize(level, m) == ShapeSize(level, n) + Cost(level, n)
    decreases level
  {
    if level > 0 {
      var c := ChildOf(level, n);
      ChildFromIs(level, n, N - 1);
      var r, r1 := Rest(level, n), Rest(level, n) + 1;
      ShapeSizeStep(level - 1, r, r1);
      KidsSizeStep(level, n, m, c, r, r1);
      ShapeSumNone(level, N);
    }
  }

  /** The child that the next position falls to takes what that costs. */
  lemma {:induction false} KidsSizeStep(level: nat, n: int, m: int, c: nat, r: int, r1: int)
    requires level > 0 && 0 <= n < IndirectCount(level) && m == n + 1 && c == ChildOf(level, n) && r == Rest(level, n)
    requires r1 == r + 1 && ShapeSize(level - 1, r1) == ShapeSize(level - 1, r) + Cost(level - 1, r)
    ensures ShapeSum(level, m, N) == ShapeSum(level, n, N) + Cost(level - 1, r)
  {
    SharesStep(level, n, m, c, r);
    ShapeSumStep(level, n, m, c, Cost(level - 1, r), N);
  }

  lemma {:induction false} SharesStep(level: nat, n: int, m: int, c: nat, r: int)
    requires level > 0 && 0 <= n < IndirectCount(level) && m == n + 1 && c == ChildOf(level, n) && r == Rest(level, n)
    ensures c < N && Share(n, level, c) == r && Share(m, level, c) == r + 1
    ensures forall j :: 0 <= j < N && j != c ==> Share(m, level, j) == Share(n, level, j)
  {
    ChildFromIs(level, n, N - 1);
    ShareStep(n, m, level, c, c);
    ShareStep(m, m, level, c, c);
    forall j | 0 <= j < N && j != c ensures Share(m, level, j) == Share(n, level, j) {
      ShareStep(n, m, level, c, j);
    }
  }

  // ----- the size of a file -----

  /** Blocks below the first `s` slots of a file of `n` data blocks. */
  ghost function SlotSum(n: int, s: nat): nat {
    if s == 0 then 0 else SlotSum(n, s - 1) + SlotSize(n, s - 1)
  }

  ghost predicate IsFileSize(n: int, k: nat) {
    forall u :: Look(u) ==> k == 1 + SlotSum(n, SLOTS)
  }

  /** Blocks of such a file, its inode block included. */
  ghost function FileSize(n: int): nat {
    assert IsFileSize(n, 1 + SlotSum(n, SLOTS));
    var k: nat :| IsFileSize(n, k);
    k
  }

  lemma {:induction false} FileSizeIs(n: int)
    ensures FileSize(n) == 1 + SlotSum(n, SLOTS)
  {
    assert Look(0);
    assert IsFileSize(n, FileSize(n));
  }

  lemma {:induction false} SizeOfFile(b: int, ts: seq<Tree>, n: int)
    requires FileShape(ts, n)
    ensures Size(Node(b, ts)) == FileSize(n)
  {
    SizeOfSlots(ts, n, SLOTS);
    FileSizeIs(n);
    assert ts[..SLOTS] == ts;
  }

  lemma {:induction false} SizeOfSlots(ts: seq<Tree>, n: int, s: nat)
    requires FileShape(ts, n) && s <= SLOTS
    ensures SizeAll(ts[..s]) == SlotSum(n, s)
  {
    if s > 0 {
      assert ts[..s][..s - 1] == ts[..s - 1];
      SizeOfSlots(ts, n, s - 1);
      ShapeOf(ts, n, s - 1);
      SizeOfShape(ts[s - 1], Level(s - 1), SlotShare(n, s - 1));
    }
  }

  ghost function SlotSize(n: int, s: nat): nat {
    ShapeSize(Level(s), SlotShare(n, s))
  }

  lemma {:induction false} SlotSumStep(n: int, m: int, c: nat, more: int, s: nat)
    requires forall j: nat :: j < s && j != c ==> SlotSize(m, j) == SlotSize(n, j)
    requires SlotSize(m, c) == SlotSize(n, c) + more
    ensures SlotSum(m, s) == SlotSum(n, s) + if c < s then more else 0
  {
    if s > 0 {
      SlotSumStep(n, m, c, more, s - 1);
    }
  }

  /** The next data block takes what it costs. */
  lemma {:induction false} FileSizeStep(n: int, m: int)
    requires 0 <= n < UNREACHABLE && m == n + 1
    ensures FileSize(m) == FileSize(n) + FileCost(n)
  {
    var c, r := SlotOf(n), InSlot(n, SlotOf(n));
    SlotHolds(n);
    SlotEnds(c);
    SlotShareStep(n, m, c, c);
    SlotShareStep(m, m, c, c);
    ShapeSizeStep(Level(c), SlotShare(n, c), SlotShare(m, c));
    forall j: nat | j < SLOTS && j != c ensures SlotSize(m, j) == SlotSize(n, j) {
      SlotShareStep(n, m, c, j);
    }
    FileCostIs(n, c, SlotShare(n, c), BlockIsNew, 0);
    SlotSumStep(n, m, c, FileCost(n), SLOTS);
    FileSizeIs(n);
    FileSizeIs(m);
  }

  // ----- how far free blocks go -----

  /** Blocks needed to extend a file from `n` to `c` data blocks. */
  ghost function Spend(n: int, c: int): nat
    decreases c - n
  {
    if n >= c then 0 else FileCost(n) + Spend(n + 1, c)
  }

  lemma {:induction false} SpendIs(n: int, c: int)
    requires 0 <= n <= c <= UNREACHABLE
    ensures FileSize(c) == FileSize(n) + Spend(n, c)
    decreases c - n
  {
    if n < c {
      var m := n + 1;
      FileSizeStep(n, m);
      SpendIs(m, c);
    }
  }

  /** The data blocks a file of `n` can be given, up to `target`, with so many free blocks. */
  ghost function Reach(n: int, target: int, free: int): (c: int)
    ensures n <= c && (n <= target ==> c <= target)
    decreases target - n
  {
    if n >= target || free < FileCost(n) then n else Reach(n + 1, target, free - FileCost(n))
  }

  lemma {:induction false} SpendMono(n: int, c: int, e: int)
    requires n <= c <= e
    ensures Spend(n, c) + Spend(c, e) == Spend(n, e)
    decreases c - n
  {
    if n < c {
      SpendMono(n + 1, c, e);
    }
  }

  /** That is as many as can be paid for. */
  lemma {:induction false} ReachMeans(n: int, target: int, free: int)
    requires n <= target && 0 <= free
    ensures var c := Reach(n, target, free);
      Spend(n, c) <= free && (c < target ==> free < Spend(n, c) + FileCost(c))
    ensures Reach(n, target, free) == target <==> Spend(n, target) <= free
    decreases target - n
  {
    if n < target && free >= FileCost(n) {
      var m, left := n + 1, free - FileCost(n);
      ReachMeans(m, target, left);
      assert Reach(n, target, free) == Reach(m, target, left);
      SpendMono(n, m, Reach(m, target, left));
      SpendMono(n, m, target);
      assert Spend(n, m) == FileCost(n) + Spend(m, m);
    }
  }

  lemma {:induction false} ReachIs(n: int, c: int, target: int, free: int)
    requires n <= c <= target && Spend(n, c) <= free
    requires c < target ==> free < Spend(n, c) + FileCost(c)
    ensures Reach(n, target, free) == c
    decreases c - n
  {
    if n < c {
      ReachIs(n + 1, c, target, free - FileCost(n));
    }
  }

  // ----- the size that a call reaches -----

  /** What a size is capped to. */
  ghost function Capped(request: nat): (size: nat)
    ensures size <= MAX_FILESIZE && size <= request
  {
    if request > MAX_FILESIZE then MAX_FILESIZE else request
  }

  /** The data blocks that a file of `size` bytes comes to have, when `request` bytes are asked for. */
  ghost function ReachedBlocks(size: nat, request: nat, free: nat): nat {
    var n, target := BlocksFor(size), BlocksFor(Capped(request));
    if target <= n then target else Reach(n, target, free)
  }

  /** The size that such a file comes to have: the one asked for, or as many whole blocks as the
      free blocks suffice for. */
  ghost function ReachedSize(size: nat, request: nat, free: nat): nat {
    if ReachedBlocks(size, request, free) == BlocksFor(Capped(request)) then Capped(request)
    else Offset(ReachedBlocks(size, request, free))
  }

  /** The stored size. */
  lemma {:induction false} StoredSize(size: nat, request: nat, newc: int, count: int, r: int)
    requires newc == BlocksFor(Capped(request)) && (count == newc || BlocksFor(size) <= count < newc)
    requires r == if count == newc then Capped(request) else Offset(count)
    ensures 0 <= r <= Capped(request) && BlocksFor(r) == count <= UNREACHABLE
    ensures r < Capped(request) <==> count != newc
    ensures r < Capped(request) ==> size <= r && r == Offset(count) && count < newc
  {
    BlocksForReachable(Capped(request));
    if count != newc {
      BlocksForIs(size);
      BlocksForIs(Capped(request));
      OffsetMono(count, newc - 1);
      OffsetMono(BlocksFor(size), count);
      BlocksForWhole(count);
    }
  }

  /** The size asked for is reached if and only if there are free blocks enough; otherwise the file
      is not cut, and ends with a whole block. */
  lemma {:induction false} ReachedSizeExactCondition(size: nat, request: nat, free: nat)
    ensures ReachedSize(size, request, free) == Capped(request) <==>
      Spend(BlocksFor(size), BlocksFor(Capped(request))) <= free
    ensures ReachedSize(size, request, free) <= Capped(request)
    ensures BlocksFor(ReachedSize(size, request, free)) == ReachedBlocks(size, request, free) <= UNREACHABLE
    ensures ReachedSize(size, request, free) < Capped(request) ==>
      size <= ReachedSize(size, request, free) == Offset(ReachedBlocks(size, request, free))
  {
    var n, target, c := BlocksFor(size), BlocksFor(Capped(request)), ReachedBlocks(size, request, free);
    if n < target {
      ReachMeans(n, target, free);
    }
    StoredSize(size, request, target, c, ReachedSize(size, request, free));
  }

  /** When it is not reached, the file gets all the blocks that can be paid for, and the next one cannot be. */
  lemma {:induction false} ReachedSizeIsLargest(size: nat, request: nat, free: nat)
    requires ReachedSize(size, request, free) < Capped(request)
    ensures var n, c := BlocksFor(size), BlocksFor(ReachedSize(size, request, free));
      n <= c && ReachedSize(size, request, free) == Offset(c) && Spend(n, c) <= free < Spend(n, c) + FileCost(c)
  {
    var n, target := BlocksFor(size), BlocksFor(Capped(request));
    ReachedSizeExactCondition(size, request, free);
    if n < target {
      ReachMeans(n, target, free);
    }
  }

  /** A file that has come to `count` blocks, and could not pay for the next if it is short of its
      target, has come as far as `ReachedSize` says. */
  lemma {:induction false} ReachedHere(size: nat, request: nat, count: int, free: nat, r: int)
    requires count == BlocksFor(Capped(request)) || BlocksFor(size) <= count < BlocksFor(Capped(request))
    requires BlocksFor(size) <= count ==>
      Spend(BlocksFor(size), count) <= free &&
      (count < BlocksFor(Capped(request)) ==> free < Spend(BlocksFor(size), count) + FileCost(count))
    requires r == if count == BlocksFor(Capped(request)) then Capped(request) else Offset(count)
    ensures r == ReachedSize(size, request, free)
  {
    if BlocksFor(size) <= count {
      ReachIs(BlocksFor(size), count, BlocksFor(Capped(request)), free);
    }
  }
}
