// refs.c: the table of open files, a hash table of sorted chains.

module OpenTables {
  import opened Blocks

  const HASHMAP_SIZE: nat := 53

  /** Reference counts are unsigned 32-bit numbers. */
  const MAX_REFS: nat := 0xFFFF_FFFF

  class Node {
    const inode: nat
    var next: Node?
    var refcount: nat
    var nlinks: int

    constructor (next: Node?, inode: nat, nlinks: int)
      ensures this.next == next && this.inode == inode && refcount == 1 && this.nlinks == nlinks
    {
      this.next, this.inode, refcount, this.nlinks := next, inode, 1, nlinks;
    }
  }

  /** What the table says of an open inode. */
  datatype Open = Open(count: nat, nlinks: int)

  /** The `i`th node of a chain, or null past its end. */
  ghost function Nth(chain: seq<Node>, i: int): Node? {
    if 0 <= i < |chain| then chain[i] else null
  }

  ghost predicate OnChain(chains: seq<seq<Node>>, b: int, i: int) {
    0 <= b < |chains| && 0 <= i < |chains[b]|
  }

  /** Chain `b` is strictly sorted, and holds numbers that hash to `b`. */
  ghost predicate SortedAt(chains: seq<seq<Node>>, b: int, i: int, j: int) {
    OnChain(chains, b, i) ==>
      && chains[b][i].inode % HASHMAP_SIZE == b
      && (i < j < |chains[b]| ==> chains[b][i].inode < chains[b][j].inode)
  }

  ghost predicate InTable(chain: seq<Node>, inode: nat) {
    exists i :: 0 <= i < |chain| && chain[i].inode == inode
  }

  /** A node is linked to the next one. */
  ghost predicate LinkedAt(chains: seq<seq<Node>>, b: int, i: int)
    reads if OnChain(chains, b, i) then {chains[b][i]} else {}
  {
    OnChain(chains, b, i) ==> chains[b][i].next == Nth(chains[b], i + 1)
  }

  /** A node says what the table does. */
  ghost predicate CountsAt(chains: seq<seq<Node>>, b: int, i: int, open: map<nat, Open>)
    reads if OnChain(chains, b, i) then {chains[b][i]} else {}
  {
    OnChain(chains, b, i) ==>
      var node := chains[b][i];
      node.inode in open && open[node.inode] == Open(node.refcount, node.nlinks) && 0 < node.refcount <= MAX_REFS
  }

  /** Where the node of an inode is in its chain, or would be: at position `k`. */
  ghost predicate NodePlace(chain: seq<Node>, inode: nat, prev: Node?, target: Node?, k: nat) {
    forall u :: Look(u) ==>
      && k <= |chain| && target == Nth(chain, k) && prev == Nth(chain, k - 1)
      && (forall i :: 0 <= i < k ==> chain[i].inode < inode)
      && (k < |chain| ==> chain[k].inode >= inode)
  }

  class Table {
    const buckets: array<Node?>
    ghost var chains: seq<seq<Node>>
    ghost var open: map<nat, Open>

    ghost function Nodes(): set<Node>
      reads this
    {
      NodesOn(chains)
    }

    ghost predicate Valid()
      reads this, buckets, Nodes()
    {
      && buckets.Length == |chains| == HASHMAP_SIZE
      && forall u :: Look(u) ==>
      && (forall b :: 0 <= b < HASHMAP_SIZE ==> buckets[b] == Nth(chains[b], 0))
      && (forall b, i, j :: SortedAt(chains, b, i, j))
      && (forall b, i :: LinkedAt(chains, b, i))
      && (forall b, i :: CountsAt(chains, b, i, open))
      && (forall inode :: inode in open ==> InTable(chains[inode % HASHMAP_SIZE], inode))
    }

    constructor ()
      ensures Valid() && open == map[] && fresh(buckets) && Nodes() == {}
    {
      assert Look(0);
      buckets := new Node?[HASHMAP_SIZE](_ => null);
      chains := seq(HASHMAP_SIZE, _ => []);
      open := map[];
    }

    method FindNodeLoc(inode: nat) returns (prev: Node?, target: Node?, ghost k: nat)
      requires Valid()
      ensures NodePlace(chains[inode % HASHMAP_SIZE], inode, prev, target, k)
      ensures inode in open <==> target != null && target.inode == inode
      ensures inode in open ==>
        target in Nodes() && open[inode] == Open(target.refcount, target.nlinks) && 0 < target.refcount <= MAX_REFS
      ensures prev != null ==> prev in Nodes()
    {
      assert Look(0);
      var hash := inode % HASHMAP_SIZE;
      ghost var chain := chains[hash];
      prev, target, k := null, buckets[hash], 0;
      while target != null && target.inode < inode
        invariant k <= |chain| && target == Nth(chain, k) && prev == Nth(chain, k - 1)
        invariant forall i :: 0 <= i < k ==> chain[i].inode < inode
        decreases |chain| - k
      {
        assert LinkedAt(chains, hash, k);
        prev, target, k := target, target.next, k + 1;
      }
      InChain(chains, hash, inode, k);
      assert CountsAt(chains, hash, k, open) && CountsAt(chains, hash, k - 1, open);
    }

    /** Open inodes have references, and not more than can be counted. */
    lemma CountAt(inode: nat)
      requires Valid() && inode in open
      ensures 0 < open[inode].count <= MAX_REFS
    {
      assert Look(0);
      var b := inode % HASHMAP_SIZE;
      assert InTable(chains[b], inode);
      var i :| 0 <= i < |chains[b]| && chains[b][i].inode == inode;
      assert CountsAt(chains, b, i, open);
    }

    /** Links a new node in after `prev`, or first in its chain. */
    method LinkIn(prev: Node?, node: Node, ghost k: nat, ghost chains': seq<seq<Node>>, ghost open': map<nat, Open>)
      requires Valid() && node !in Nodes() && node.inode !in open && node.refcount == 1
      requires NodePlace(chains[node.inode % HASHMAP_SIZE], node.inode, prev, node.next, k)
      requires open' == open[node.inode := Open(1, node.nlinks)]
      requires var h := node.inode % HASHMAP_SIZE;
        k <= |chains[h]| && chains' == chains[h := chains[h][..k] + [node] + chains[h][k..]]
      modifies buckets, (if prev == null then {} else {prev})`next
      ensures forall b, i :: LinkedAt(chains', b, i)
      ensures forall b, i :: CountsAt(chains', b, i, open')
      ensures forall b :: 0 <= b < HASHMAP_SIZE ==> buckets[b] == Nth(chains'[b], 0)
    {
      assert Look(0);
      ghost var h := node.inode % HASHMAP_SIZE;
      if prev == null {
        buckets[node.inode % HASHMAP_SIZE] := node;
      } else {
        prev.next := node;
      }
      forall b, i ensures LinkedAt(chains', b, i) {
        var j := if b == h && i > k then i - 1 else i;
        PlaceInserted(chains, chains', h, k, node, b, i, j);
        assert old(LinkedAt(chains, b, j));
        Distinct(chains, b, j, h, k - 1);
      }
      forall b, i ensures CountsAt(chains', b, i, open') {
        var j := if b == h && i > k then i - 1 else i;
        PlaceInserted(chains, chains', h, k, node, b, i, j);
        assert old(CountsAt(chains, b, j, open));
      }
    }

    /** Splices a new node in at its place. */
    method Insert(prev: Node?, node: Node, ghost k: nat)
      requires Valid() && node !in Nodes() && node.inode !in open && node.refcount == 1
      requires NodePlace(chains[node.inode % HASHMAP_SIZE], node.inode, prev, node.next, k)
      modifies this, buckets, if prev == null then {} else {prev}
      ensures Valid() && open == old(open)[node.inode := Open(1, node.nlinks)] && Nodes() == old(Nodes()) + {node}
    {
      assert Look(0);
      ghost var h, was, open0 := node.inode % HASHMAP_SIZE, chains, open;
      ghost var chains' := was[h := was[h][..k] + [node] + was[h][k..]];
      assert CountsAt(was, h, k, open0);
      ghost var open' := open0[node.inode := Open(1, node.nlinks)];
      LinkIn(prev, node, k, chains', open');
      chains, open := chains', open';
      Inserted(was, chains', open0, h, k, node);
    }

    /** Links a node out. */
    method LinkOut(prev: Node?, node: Node, ghost k: nat, ghost chains': seq<seq<Node>>, ghost open': map<nat, Open>)
      requires Valid() && node in Nodes()
      requires NodePlace(chains[node.inode % HASHMAP_SIZE], node.inode, prev, node, k)
      requires open' == open - {node.inode}
      requires var h := node.inode % HASHMAP_SIZE;
        k < |chains[h]| && chains' == chains[h := chains[h][..k] + chains[h][k + 1..]]
      modifies buckets, (if prev == null then {} else {prev})`next
      ensures forall b, i :: LinkedAt(chains', b, i)
      ensures forall b, i :: CountsAt(chains', b, i, open')
      ensures forall b :: 0 <= b < HASHMAP_SIZE ==> buckets[b] == Nth(chains'[b], 0)
    {
      assert Look(0);
      ghost var h := node.inode % HASHMAP_SIZE;
      assert LinkedAt(chains, h, k);
      if prev == null {
        buckets[node.inode % HASHMAP_SIZE] := node.next;
      } else {
        prev.next := node.next;
      }
      forall b, i ensures LinkedAt(chains', b, i) {
        var j := if b == h && i >= k then i + 1 else i;
        PlaceRemoved(chains, chains', h, k, b, i, j);
        assert old(LinkedAt(chains, b, j));
        Distinct(chains, b, j, h, k - 1);
      }
      assert CountsAt(chains, h, k, open);
      forall b, i ensures CountsAt(chains', b, i, open') {
        var j := if b == h && i >= k then i + 1 else i;
        PlaceRemoved(chains, chains', h, k, b, i, j);
        assert old(CountsAt(chains, b, j, open));
        Distinct(chains, b, j, h, k);
      }
    }

    /** Splices a node out. */
    method Delete(prev: Node?, node: Node, ghost k: nat)
      requires Valid() && node in Nodes()
      requires NodePlace(chains[node.inode % HASHMAP_SIZE], node.inode, prev, node, k)
      modifies this, buckets, if prev == null then {} else {prev}
      ensures Valid() && open == old(open) - {node.inode} && Nodes() <= old(Nodes())
    {
      assert Look(0);
      ghost var h, was, open0 := node.inode % HASHMAP_SIZE, chains, open;
      ghost var chains' := was[h := was[h][..k] + was[h][k + 1..]];
      assert CountsAt(was, h, k, open0);
      ghost var open' := open0 - {node.inode};
      LinkOut(prev, node, k, chains', open');
      chains, open := chains', open';
      Removed(was, chains', open0, h, k);
    }

    /** Changes what a node says of its inode. A count of 0 would be one that has wrapped around. */
    method Update(node: Node, refcount: nat, nlinks: int, ghost prev: Node?, ghost k: nat)
      requires Valid() && node in Nodes() && NodePlace(chains[node.inode % HASHMAP_SIZE], node.inode, prev, node, k)
      requires refcount <= MAX_REFS
      modifies this`open, node`refcount, node`nlinks
      ensures Valid() <==> refcount > 0
      ensures open == old(open)[node.inode := Open(refcount, nlinks)] && chains == old(chains)
    {
      assert Look(0);
      ghost var h := node.inode % HASHMAP_SIZE;
      node.refcount := refcount;
      node.nlinks := nlinks;
      open := open[node.inode := Open(refcount, nlinks)];
      if refcount == 0 {
        assert !CountsAt(chains, h, k, open);
        return;
      }
      forall b, i ensures LinkedAt(chains, b, i) {
        assert old(LinkedAt(chains, b, i));
      }
      forall b, i ensures CountsAt(chains, b, i, open) {
        assert old(CountsAt(chains, b, i, open));
        Distinct(chains, b, i, h, k);
      }
      forall inode | inode in open ensures InTable(chains[inode % HASHMAP_SIZE], inode) {
        if inode == node.inode {
          assert chains[h][k].inode == inode;
        }
      }
    }
  }

  /** Where a node was before another one was inserted, and what comes after it now. */
  lemma {:induction false} PlaceInserted(chains: seq<seq<Node>>, chains': seq<seq<Node>>, h: nat, k: nat, node: Node,
                                         b: int, i: int, j: int)
    requires h < |chains| && k <= |chains[h]| && chains' == chains[h := chains[h][..k] + [node] + chains[h][k..]]
    requires j == if b == h && i > k then i - 1 else i
    ensures OnChain(chains', b, i) && !(b == h && i == k) ==>
      && OnChain(chains, b, j) && chains'[b][i] == chains[b][j]
      && Nth(chains'[b], i + 1) == if b == h && j == k - 1 then node else Nth(chains[b], j + 1)
    ensures OnChain(chains', h, k) && chains'[h][k] == node && Nth(chains'[h], k + 1) == Nth(chains[h], k)
  {
  }

  lemma {:induction false} PlaceRemoved(chains: seq<seq<Node>>, chains': seq<seq<Node>>, h: nat, k: nat, b: int, i: int,
                                        j: int)
    requires h < |chains| && k < |chains[h]| && chains' == chains[h := chains[h][..k] + chains[h][k + 1..]]
    requires j == if b == h && i >= k then i + 1 else i
    ensures OnChain(chains', b, i) ==>
      && OnChain(chains, b, j) && chains'[b][i] == chains[b][j]
      && Nth(chains'[b], i + 1) == if b == h && j == k - 1 then Nth(chains[b], k + 1) else Nth(chains[b], j + 1)
  {
  }

  /** Different places hold different nodes, of different inodes. */
  lemma {:induction false} Distinct(chains: seq<seq<Node>>, b: int, i: int, c: int, j: int)
    requires forall b, i, j :: SortedAt(chains, b, i, j)
    ensures OnChain(chains, b, i) && OnChain(chains, c, j) && !(b == c && i == j) ==>
      chains[b][i].inode != chains[c][j].inode
  {
    assert SortedAt(chains, b, i, j) && SortedAt(chains, c, j, i);
  }

  lemma {:induction false} SortedInserted(chains: seq<seq<Node>>, h: nat, k: nat, node: Node, b: int, i: int, j: int)
    requires h < |chains| && k <= |chains[h]| && node.inode % HASHMAP_SIZE == h
    requires forall b, i, j :: SortedAt(chains, b, i, j)
    requires forall i :: 0 <= i < k ==> chains[h][i].inode < node.inode
    requires k < |chains[h]| ==> chains[h][k].inode > node.inode
    ensures SortedAt(chains[h := chains[h][..k] + [node] + chains[h][k..]], b, i, j)
  {
    var i0, j0 := if b == h && i > k then i - 1 else i, if b == h && j > k then j - 1 else j;
    assert SortedAt(chains, b, i0, j0) && SortedAt(chains, h, k, j0);
  }

  lemma {:induction false} SortedRemoved(chains: seq<seq<Node>>, h: nat, k: nat, b: int, i: int, j: int)
    requires h < |chains| && k < |chains[h]|
    requires forall b, i, j :: SortedAt(chains, b, i, j)
    ensures SortedAt(chains[h := chains[h][..k] + chains[h][k + 1..]], b, i, j)
  {
    var i0, j0 := if b == h && i >= k then i + 1 else i, if b == h && j >= k then j + 1 else j;
    assert SortedAt(chains, b, i0, j0);
  }

  ghost function NodesOn(chains: seq<seq<Node>>): set<Node> {
    set b, i | 0 <= b < |chains| && 0 <= i < |chains[b]| :: chains[b][i]
  }

  lemma {:induction false} NodesInserted(chains: seq<seq<Node>>, h: nat, k: nat, node: Node)
    requires h < |chains| && k <= |chains[h]|
    ensures NodesOn(chains[h := chains[h][..k] + [node] + chains[h][k..]]) == NodesOn(chains) + {node}
  {
    var chains' := chains[h := chains[h][..k] + [node] + chains[h][k..]];
    forall n | n in NodesOn(chains) ensures n in NodesOn(chains') {
      var b, i :| 0 <= b < |chains| && 0 <= i < |chains[b]| && chains[b][i] == n;
      assert chains'[b][if b == h && i >= k then i + 1 else i] == n;
    }
    forall n | n in NodesOn(chains') ensures n in NodesOn(chains) + {node} {
      var b, i :| 0 <= b < |chains'| && 0 <= i < |chains'[b]| && chains'[b][i] == n;
      if !(b == h && i == k) {
        assert chains[b][if b == h && i > k then i - 1 else i] == n;
      }
    }
    assert chains'[h][k] == node;
  }

  lemma {:induction false} NodesRemoved(chains: seq<seq<Node>>, h: nat, k: nat)
    requires h < |chains| && k < |chains[h]|
    ensures NodesOn(chains[h := chains[h][..k] + chains[h][k + 1..]]) <= NodesOn(chains)
  {
    var chains' := chains[h := chains[h][..k] + chains[h][k + 1..]];
    forall n | n in NodesOn(chains') ensures n in NodesOn(chains) {
      var b, i :| 0 <= b < |chains'| && 0 <= i < |chains'[b]| && chains'[b][i] == n;
      assert chains[b][if b == h && i >= k then i + 1 else i] == n;
    }
  }

  lemma {:induction false} InTableInserted(chain: seq<Node>, k: nat, node: Node, inode: nat)
    requires k <= |chain| && InTable(chain, inode)
    ensures InTable(chain[..k] + [node] + chain[k..], inode)
  {
    var i :| 0 <= i < |chain| && chain[i].inode == inode;
    assert (chain[..k] + [node] + chain[k..])[if i < k then i else i + 1] == chain[i];
  }

  lemma {:induction false} InTableRemoved(chain: seq<Node>, k: nat, inode: nat)
    requires k < |chain| && InTable(chain, inode) && chain[k].inode != inode
    ensures InTable(chain[..k] + chain[k + 1..], inode)
  {
    var i :| 0 <= i < |chain| && chain[i].inode == inode;
    assert (chain[..k] + chain[k + 1..])[if i < k then i else i - 1] == chain[i];
  }

  /** All but the links: the new node is in its place, and every open inode is still listed. */
  lemma {:induction false} Inserted(chains: seq<seq<Node>>, chains': seq<seq<Node>>, open: map<nat, Open>, h: nat,
                                    k: nat, node: Node)
    requires |chains| == HASHMAP_SIZE && h == node.inode % HASHMAP_SIZE && k <= |chains[h]|
    requires forall b, i, j :: SortedAt(chains, b, i, j)
    requires forall i :: 0 <= i < k ==> chains[h][i].inode < node.inode
    requires k < |chains[h]| ==> chains[h][k].inode > node.inode
    requires forall inode :: inode in open ==> InTable(chains[inode % HASHMAP_SIZE], inode)
    requires chains' == chains[h := chains[h][..k] + [node] + chains[h][k..]]
    ensures forall b, i, j :: SortedAt(chains', b, i, j)
    ensures forall inode: nat :: inode in open || inode == node.inode ==> InTable(chains'[inode % HASHMAP_SIZE], inode)
    ensures NodesOn(chains') == NodesOn(chains) + {node}
  {
    forall b, i, j ensures SortedAt(chains', b, i, j) {
      SortedInserted(chains, h, k, node, b, i, j);
    }
    forall inode: nat | inode in open || inode == node.inode ensures InTable(chains'[inode % HASHMAP_SIZE], inode) {
      if inode == node.inode {
        assert chains'[h][k].inode == inode;
      } else if inode % HASHMAP_SIZE == h {
        InTableInserted(chains[h], k, node, inode);
      }
    }
    NodesInserted(chains, h, k, node);
  }

  lemma {:induction false} Removed(chains: seq<seq<Node>>, chains': seq<seq<Node>>, open: map<nat, Open>, h: nat,
                                   k: nat)
    requires |chains| == HASHMAP_SIZE && h < |chains| && k < |chains[h]|
    requires forall b, i, j :: SortedAt(chains, b, i, j)
    requires forall inode :: inode in open ==> InTable(chains[inode % HASHMAP_SIZE], inode)
    requires chains' == chains[h := chains[h][..k] + chains[h][k + 1..]]
    ensures forall b, i, j :: SortedAt(chains', b, i, j)
    ensures forall inode :: inode in open && inode != chains[h][k].inode ==>
      InTable(chains'[inode % HASHMAP_SIZE], inode)
    ensures NodesOn(chains') <= NodesOn(chains)
  {
    forall b, i, j ensures SortedAt(chains', b, i, j) {
      SortedRemoved(chains, h, k, b, i, j);
    }
    forall inode | inode in open && inode != chains[h][k].inode ensures InTable(chains'[inode % HASHMAP_SIZE], inode) {
      if inode % HASHMAP_SIZE == h {
        InTableRemoved(chains[h], k, inode);
      }
    }
    NodesRemoved(chains, h, k);
  }

  /** Position `k` of a sorted chain, up to which the numbers are less, decides whether `inode`
      is listed. */
  lemma {:induction false} InChain(chains: seq<seq<Node>>, b: nat, inode: nat, k: nat)
    requires b < |chains| && k <= |chains[b]| && forall b, i, j :: SortedAt(chains, b, i, j)
    requires forall i :: 0 <= i < k ==> chains[b][i].inode < inode
    requires k < |chains[b]| ==> chains[b][k].inode >= inode
    ensures InTable(chains[b], inode) <==> k < |chains[b]| && chains[b][k].inode == inode
  {
    if InTable(chains[b], inode) {
      var i :| 0 <= i < |chains[b]| && chains[b][i].inode == inode;
      assert SortedAt(chains, b, k, i);
    }
  }
}

module OpenFiles {
  import opened Geometry
  import opened Blocks
  import opened FreeLists
  import opened Files
  import opened SetSize
  import opened Inodes
  import opened OpenTables

  /** Every open inode exists, and its cached link count is the one on disk. */
  ghost predicate Agrees(open: map<nat, Open>, files: seq<File>) {
    forall u :: Look(u) ==>
      forall inode :: inode in open ==>
        inode < |files| && files[inode].File? && open[inode].nlinks == files[inode].nlinks
  }

  lemma {:induction false} AgreesAt(open: map<nat, Open>, files: seq<File>, inode: nat)
    requires Agrees(open, files) && inode in open
    ensures inode < |files| && files[inode].File? && open[inode].nlinks == files[inode].nlinks
  {
    assert Look(0);
  }

  /** The files after the link count of one of them has been set. */
  ghost function Relinked(files: seq<File>, inode: nat, nlinks: nat): seq<File> {
    if inode < |files| && files[inode].File? then files[inode := files[inode].(nlinks := nlinks)] else files
  }

  /** The link count of an open inode has been changed, in the table and on disk alike; nothing has
      if the inode is not open. */
  ghost predicate Counted(open: map<nat, Open>, files: seq<File>, open': map<nat, Open>, files': seq<File>, inode: nat,
                          step: int, r: int) {
    if inode in open then
      var n := (open[inode].nlinks + step) % NLINKS;
      r == 0 && files' == Relinked(files, inode, n) && open' == open[inode := open[inode].(nlinks := n)]
    else r == -1 && files' == files && open' == open
  }

  /** A reference has been counted, modulo 2^32, unless there is no such inode. */
  ghost predicate Opened(open: map<nat, Open>, files: seq<File>, open': map<nat, Open>, inode: nat, r: int)
    requires inode < |files|
  {
    if files[inode].File? then
      var count := if inode in open then open[inode].count else 0;
      r == 0 && open' == open[inode := OpenTables.Open((count + 1) % (MAX_REFS + 1), files[inode].nlinks)]
    else r == -1 && open' == open
  }

  /** The reference count of the inode wraps around when it is opened once more. */
  ghost predicate Wraps(open: map<nat, Open>, inode: nat) {
    inode in open && open[inode].count == MAX_REFS
  }

  /** The inode is freed when it is closed. */
  ghost predicate Last(open: map<nat, Open>, inode: nat) {
    inode in open && open[inode] == OpenTables.Open(1, 0)
  }

  /** A reference has been given up; with the last one, an inode without links has gone. */
  ghost predicate Closed(open: map<nat, Open>, files: seq<File>, open': map<nat, Open>, files': seq<File>, inode: nat,
                         r: int) {
    if inode in open then
      var o := open[inode];
      && r == 0 && inode < |files|
      && open' == (if o.count > 1 then open[inode := o.(count := o.count - 1)] else open - {inode})
      && files' == if o.count == 1 && o.nlinks == 0 then files[inode := Missing] else files
    else r == -1 && files' == files && open' == open
  }

  /** The table goes on agreeing with the disk. */
  lemma {:induction false} AgreesSet(open: map<nat, Open>, files: seq<File>, inode: nat, o: Open)
    requires Agrees(open, files) && inode < |files| && files[inode].File? && o.nlinks >= 0
    ensures Agrees(open[inode := o], files[inode := files[inode].(nlinks := o.nlinks)])
    ensures o.nlinks == files[inode].nlinks ==> Agrees(open[inode := o], files)
    ensures Agrees(open - {inode}, files) && Agrees(open - {inode}, files[inode := Missing])
  {
    assert Look(0);
  }

  ghost function OnDisk(d: Disk): (files: seq<File>)
    reads d, d.data
    ensures |files| == |d.view.entries|
  {
    FilesOf(d.Image(), d.view.entries)
  }

  /** The file system is sound. */
  ghost predicate Ready(d: Disk)
    reads d, d.data
  {
    forall u :: Look(u) ==> FsOk(d.Image(), d.view)
  }

  // ----- the disk -----

  /** The link count of an inode, or -1 if there is none. */
  method GetInfo(d: Disk, inode: nat) returns (nlinks: int)
    requires Ready(d) && inode < |d.view.entries|
    ensures nlinks == if OnDisk(d)[inode].File? then OnDisk(d)[inode].nlinks else -1
  {
    assert Look(0);
    Loadable(d.Image(), d.view, inode);
    var block, found, stored := Load(d, inode);
    if !found {
      return -1;
    }
    return stored.nlinks;
  }

  method AddLink(d: Disk, inode: nat) returns (nlinks: int)
    requires Ready(d) && inode < |OnDisk(d)| && OnDisk(d)[inode].File?
    modifies d.data
    ensures Ready(d) && nlinks == (old(OnDisk(d))[inode].nlinks + 1) % NLINKS
    ensures OnDisk(d) == Relinked(old(OnDisk(d)), inode, nlinks)
  {
    assert Look(0);
    nlinks := InodeLink(d, inode);
  }

  method RemoveLink(d: Disk, inode: nat) returns (nlinks: int)
    requires Ready(d) && inode < |OnDisk(d)| && OnDisk(d)[inode].File?
    modifies d.data
    ensures Ready(d) && nlinks == (old(OnDisk(d))[inode].nlinks - 1) % NLINKS
    ensures OnDisk(d) == Relinked(old(OnDisk(d)), inode, nlinks)
  {
    assert Look(0);
    nlinks := InodeUnlink(d, inode);
  }

  method Release(d: Disk, inode: nat) returns (r: int)
    requires Ready(d) && inode < |OnDisk(d)| && OnDisk(d)[inode].File? && OnDisk(d)[inode].nlinks == 0
    modifies d`view, d.data
    ensures r == 0 && (Ready(d) <==> !ZeroHeads(old(d.view).spare))
    ensures Ready(d) ==> OnDisk(d) == old(OnDisk(d))[inode := Missing]
  {
    assert Look(0);
    r := InodeFree(d, inode);
  }

  // ----- the table -----

  /** refs.c: references to open inodes, and their link counts. */
  class OpenFiles {
    const d: Disk
    const table: Table

    ghost predicate Valid()
      reads table, table.buckets, table.Nodes(), d, d.data
    {
      table.Valid() && Ready(d) && Agrees(table.open, OnDisk(d))
    }

    /** Nothing is open at first. */
    constructor (d: Disk)
      requires Ready(d)
      ensures Valid() && this.d == d && table.open == map[] && fresh(table) && fresh(table.buckets)
      ensures table.Nodes() == {}
    {
      this.d := d;
      table := new Table();
    }

    /** Opens an inode, or counts one more reference to it; fails exactly if there is no such inode.
        All stays well if and only if the count does not wrap around. */
    method Open(inode: nat) returns (r: int)
      requires Valid() && inode < |d.view.entries|
      modifies table, table.buckets, table.Nodes()
      ensures Valid() <==> !Wraps(old(table.open), inode)
      ensures fresh(table.Nodes() - old(table.Nodes()))
      ensures Opened(old(table.open), OnDisk(d), table.open, inode, r)
      ensures r == if OnDisk(d)[inode].File? then 0 else -1
      ensures r == 0 && !Wraps(old(table.open), inode) ==>
        && inode in table.open && table.open[inode].nlinks == OnDisk(d)[inode].nlinks
        && table.open[inode].count == if inode in old(table.open) then old(table.open)[inode].count + 1 else 1
      ensures r == -1 ==> table.open == old(table.open)
    {
      var prev, target;
      ghost var k;
      prev, target, k := table.FindNodeLoc(inode);
      if target != null && target.inode == inode {
        OpenAgain(target, prev, k);
        return 0;
      }
      var nlinks := GetInfo(d, inode);
      if nlinks < 0 {
        return -1;
      }
      OpenNew(inode, nlinks, prev, target, k);
      return 0;
    }

    /** How often an inode is open. */
    method Count(inode: nat) returns (count: nat)
      requires Valid()
      ensures count == if inode in table.open then table.open[inode].count else 0
    {
      var prev, target;
      ghost var k;
      prev, target, k := table.FindNodeLoc(inode);
      return if target != null && target.inode == inode then target.refcount else 0;
    }

    method OpenAgain(target: Node, ghost prev: Node?, ghost k: nat)
      requires Valid() && target in table.Nodes() && target.inode in table.open
      requires NodePlace(table.chains[target.inode % HASHMAP_SIZE], target.inode, prev, target, k)
      requires table.open[target.inode] == OpenTables.Open(target.refcount, target.nlinks)
      requires target.refcount <= MAX_REFS
      modifies table`open, target`refcount, target`nlinks
      ensures Valid() <==> !Wraps(old(table.open), target.inode)
      ensures table.chains == old(table.chains)
      ensures target.inode < |OnDisk(d)| && Opened(old(table.open), OnDisk(d), table.open, target.inode, 0)
    {
      ghost var open := table.open;
      AgreesAt(open, OnDisk(d), target.inode);
      var count := (target.refcount + 1) % (MAX_REFS + 1);
      AgreesSet(open, OnDisk(d), target.inode, OpenTables.Open(count, target.nlinks));
      table.Update(target, count, target.nlinks, prev, k);
    }

    method OpenNew(inode: nat, nlinks: nat, prev: Node?, next: Node?, ghost k: nat)
      requires Valid() && inode !in table.open && (prev != null ==> prev in table.Nodes())
      requires NodePlace(table.chains[inode % HASHMAP_SIZE], inode, prev, next, k)
      requires inode < |OnDisk(d)| && OnDisk(d)[inode].File? && OnDisk(d)[inode].nlinks == nlinks
      modifies table, table.buckets, table.Nodes()
      ensures Valid() && fresh(table.Nodes() - old(table.Nodes()))
      ensures Opened(old(table.open), OnDisk(d), table.open, inode, 0)
    {
      var node := new Node(next, inode, nlinks);
      AgreesSet(table.open, OnDisk(d), inode, OpenTables.Open(1, nlinks));
      table.Insert(prev, node, k);
    }

    /** Gives up one reference to an open inode. An inode with neither references nor links left
        is freed, and no other. All stays well if and only if the list of free numbers, if it is
        added to, does not begin with 0. */
    method Close(inode: nat) returns (r: int)
      requires Valid()
      modifies table, table.buckets, table.Nodes(), d`view, d.data
      ensures Valid() <==> !(Last(old(table.open), inode) && ZeroHeads(old(d.view).spare))
      ensures table.Nodes() <= old(table.Nodes())
      ensures r == if inode in old(table.open) then 0 else -1
      ensures Valid() ==> Closed(old(table.open), old(OnDisk(d)), table.open, OnDisk(d), inode, r)
      ensures Valid() && r == 0 && old(table.open)[inode].count > 1 ==>
        && inode in table.open && table.open[inode].count == old(table.open)[inode].count - 1
        && OnDisk(d) == old(OnDisk(d))
      ensures Valid() && r == 0 && old(table.open)[inode].count <= 1 ==>
        && inode !in table.open && inode < |old(OnDisk(d))| && old(OnDisk(d))[inode].File?
        && (if old(OnDisk(d))[inode].nlinks == 0 then OnDisk(d) == old(OnDisk(d))[inode := Missing]
            else OnDisk(d) == old(OnDisk(d)))
    {
      var prev, target;
      ghost var k;
      prev, target, k := table.FindNodeLoc(inode);
      if target == null || target.inode != inode {
        return -1;
      }
      AgreesAt(table.open, OnDisk(d), inode);
      if target.refcount > 1 {
        CloseOnce(target, prev, k);
        return 0;
      }
      r := CloseLast(target, prev, k);
    }

    method CloseOnce(target: Node, ghost prev: Node?, ghost k: nat)
      requires Valid() && target in table.Nodes() && target.inode in table.open
      requires NodePlace(table.chains[target.inode % HASHMAP_SIZE], target.inode, prev, target, k)
      requires table.open[target.inode] == OpenTables.Open(target.refcount, target.nlinks)
      requires 1 < target.refcount <= MAX_REFS
      modifies table`open, target`refcount, target`nlinks
      ensures Valid() && table.chains == old(table.chains)
      ensures Closed(old(table.open), OnDisk(d), table.open, OnDisk(d), target.inode, 0)
    {
      AgreesAt(table.open, OnDisk(d), target.inode);
      AgreesSet(table.open, OnDisk(d), target.inode, OpenTables.Open(target.refcount - 1, target.nlinks));
      table.Update(target, target.refcount - 1, target.nlinks, prev, k);
    }

    method CloseLast(target: Node, prev: Node?, ghost k: nat) returns (r: int)
      requires Valid() && target in table.Nodes() && target.inode in table.open
      requires (prev != null ==> prev in table.Nodes())
      requires NodePlace(table.chains[target.inode % HASHMAP_SIZE], target.inode, prev, target, k)
      requires table.open[target.inode] == OpenTables.Open(1, target.nlinks)
      modifies table, table.buckets, table.Nodes(), d`view, d.data
      ensures Valid() <==> !(Last(old(table.open), target.inode) && ZeroHeads(old(d.view).spare))
      ensures r == 0 && table.Nodes() <= old(table.Nodes())
      ensures Valid() ==> Closed(old(table.open), old(OnDisk(d)), table.open, OnDisk(d), target.inode, 0)
    {
      ghost var open, files := table.open, OnDisk(d);
      AgreesAt(open, files, target.inode);
      AgreesSet(open, files, target.inode, OpenTables.Open(1, target.nlinks));
      var inode, nlinks := target.inode, target.nlinks;
      table.Delete(prev, target, k);
      r := 0;
      if nlinks == 0 {
        r := Release(d, inode);
        assert table.Valid() && table.open == open - {inode};
        if Ready(d) {
          assert OnDisk(d) == files[inode := Missing];
        }
      }
    }

    /** Adds a link to an open inode, on disk and in the table. */
    method Link(inode: nat) returns (r: int)
      requires Valid()
      modifies table, table.Nodes(), d.data
      ensures Valid() && table.chains == old(table.chains)
      ensures Counted(old(table.open), old(OnDisk(d)), table.open, OnDisk(d), inode, 1, r)
      ensures r == if inode in old(table.open) then 0 else -1
      ensures r == 0 ==>
        && inode < |OnDisk(d)| == |old(OnDisk(d))| && old(OnDisk(d))[inode].File? && OnDisk(d)[inode].File?
        && OnDisk(d)[inode].nlinks == (old(OnDisk(d))[inode].nlinks + 1) % NLINKS
        && inode in table.open && table.open[inode].nlinks == OnDisk(d)[inode].nlinks
    {
      var prev, target;
      ghost var k;
      prev, target, k := table.FindNodeLoc(inode);
      if target == null || target.inode != inode {
        return -1;
      }
      AgreesAt(table.open, OnDisk(d), inode);
      var nlinks := AddLink(d, inode);
      Store(target, nlinks, prev, k, old(OnDisk(d)));
      return 0;
    }

    /** Removes a link of an open inode, on disk and in the table. */
    method Unlink(inode: nat) returns (r: int)
      requires Valid()
      modifies table, table.Nodes(), d.data
      ensures Valid() && table.chains == old(table.chains)
      ensures Counted(old(table.open), old(OnDisk(d)), table.open, OnDisk(d), inode, -1, r)
      ensures r == if inode in old(table.open) then 0 else -1
      ensures r == 0 ==>
        && inode < |OnDisk(d)| == |old(OnDisk(d))| && old(OnDisk(d))[inode].File? && OnDisk(d)[inode].File?
        && OnDisk(d)[inode].nlinks == (old(OnDisk(d))[inode].nlinks - 1) % NLINKS
        && inode in table.open && table.open[inode].nlinks == OnDisk(d)[inode].nlinks
    {
      var prev, target;
      ghost var k;
      prev, target, k := table.FindNodeLoc(inode);
      if target == null || target.inode != inode {
        return -1;
      }
      AgreesAt(table.open, OnDisk(d), inode);
      var nlinks := RemoveLink(d, inode);
      Store(target, nlinks, prev, k, old(OnDisk(d)));
      return 0;
    }

    /** Takes the link count just written to disk over into the table. */
    method Store(target: Node, nlinks: nat, ghost prev: Node?, ghost k: nat, ghost files: seq<File>)
      requires table.Valid() && Ready(d) && Agrees(table.open, files)
      requires target in table.Nodes() && target.inode in table.open
      requires NodePlace(table.chains[target.inode % HASHMAP_SIZE], target.inode, prev, target, k)
      requires table.open[target.inode] == OpenTables.Open(target.refcount, target.nlinks)
      requires 0 < target.refcount <= MAX_REFS
      requires OnDisk(d) == Relinked(files, target.inode, nlinks)
      modifies table`open, target`refcount, target`nlinks
      ensures Valid() && table.chains == old(table.chains)
      ensures table.open == old(table.open)[target.inode := old(table.open)[target.inode].(nlinks := nlinks)]
    {
      AgreesAt(table.open, files, target.inode);
      AgreesSet(table.open, files, target.inode, OpenTables.Open(target.refcount, nlinks));
      table.Update(target, target.refcount, nlinks, prev, k);
    }
  }
}
