// Slot arithmetic of inode.c: which inode slot, at which indirection level, holds a
// given data block of a file.

/** Sizes the source leaves to be configured. Nothing below depends on their values, beyond what the source
    asserts of them. */
module Geometry {

  type Positive = x: int | 1 <= x witness 1

  /** Pointers in an indirect block; also the numbers in an inode-table block. */
  const N: Positive

  /** At least so many that the name table of a directory block has room for more than 255 bytes. */
  type BlockSize = x: int | 344 <= x witness 4096

  /** Bytes in a block. */
  const BLOCKSIZE: BlockSize

  /** Pointer slots of an inode that lead straight to data. */
  const DIRECT: nat

  /** LONG_MIN: the end marker for block numbers and for inode numbers. */
  const EOF: int := -0x8000_0000_0000_0000

  /** `x` limited to 0..cap. */
  function Within(x: int, cap: nat): (r: nat)
    ensures r <= cap
  {
    if x <= 0 then 0 else if x <= cap then x else cap
  }

  /** Data blocks under one pointer of the given indirection level. */
  function IndirectCount(level: nat): Positive
    decreases level, N + 1
  {
    if level == 0 then 1 else Start(level, N)
  }

  /** Data blocks under the first `i` pointers of an indirect block of that level. */
  function Start(level: nat, i: int): (r: nat)
    requires level > 0
    ensures r >= i
    decreases level, i
  {
    if i <= 0 then 0 else Start(level, i - 1) + IndirectCount(level - 1)
  }

  lemma {:induction false} StartIs(level: nat, i: nat)
    requires level > 0
    ensures Start(level, i) == i * IndirectCount(level - 1)
  {
    if i > 0 {
      StartIs(level, i - 1);
      Succ(i - 1, IndirectCount(level - 1));
    }
  }

  lemma {:induction false} StartMono(level: nat, i: nat, j: nat)
    requires level > 0 && i <= j
    ensures Start(level, i) <= Start(level, j)
    ensures i < j ==> Start(level, i + 1) <= Start(level, j)
    decreases j
  {
    if i < j {
      StartMono(level, i, j - 1);
    }
  }

  /** The child, up to the `i`th, under which position `k` lies. */
  ghost function ChildFrom(level: nat, k: int, i: nat): (c: nat)
    requires level > 0
    ensures c <= i
  {
    if i == 0 || Start(level, i) <= k then i else ChildFrom(level, k, i - 1)
  }

  lemma {:induction false} ChildFromIs(level: nat, k: int, i: nat)
    requires level > 0 && 0 <= k < Start(level, i + 1)
    ensures Start(level, ChildFrom(level, k, i)) <= k < Start(level, ChildFrom(level, k, i) + 1)
  {
    if i > 0 && k < Start(level, i) {
      ChildFromIs(level, k, i - 1);
    }
  }

  /** Position `k` of an indirect block is position `Rest` of its child `ChildOf`. */
  ghost function ChildOf(level: nat, k: int): (c: nat)
    requires level > 0
    ensures c < N
  {
    ChildFrom(level, k, N - 1)
  }

  ghost function Rest(level: nat, k: int): int
    requires level > 0
  {
    k - Start(level, ChildOf(level, k))
  }

  /** These are the quotient and the remainder. */
  lemma {:induction false} ChildIsQuotient(level: nat, k: int)
    requires level > 0 && 0 <= k < IndirectCount(level)
    ensures ChildOf(level, k) == k / IndirectCount(level - 1) && Rest(level, k) == k % IndirectCount(level - 1)
  {
    var c, d: int := ChildOf(level, k), IndirectCount(level - 1);
    ChildFromIs(level, k, N - 1);
    StartIs(level, c);
    DivideUnique(k, d, c, k - c * d);
  }

  lemma {:induction false} DivideUnique(k: int, d: int, q: int, r: int)
    requires d > 0 && k == q * d + r && 0 <= r < d
    ensures k / d == q && k % d == r
  {
    var e := k / d - q;
    assert e * d == (k / d) * d - q * d;
    if e > 0 {
      MulMono(1, e, d);
    } else if e < 0 {
      MulMono(e, -1, d);
    }
  }

  lemma {:induction false} Divide(k: int, d: Positive)
    ensures k == (k / d) * d + k % d && 0 <= k % d < d
  {
  }

  lemma {:induction false} MulMono(a: int, b: int, d: int)
    requires a <= b && d >= 0
    ensures a * d <= b * d
  {
    assert (b - a) * d >= 0;
  }

  lemma {:induction false} QuotientBelow(k: int, d: Positive, bound: nat)
    requires 0 <= k < bound * d
    ensures 0 <= k / d < bound
  {
    Divide(k, d);
    if k / d >= bound {
      MulMono(bound, k / d, d);
    }
  }

  lemma {:induction false} Succ(i: int, d: int)
    ensures (i + 1) * d == i * d + d
  {
  }

  /** File offset at which block `k` starts. */
  function Offset(k: int): (o: nat)
    ensures o >= k
  {
    if k <= 0 then 0 else Offset(k - 1) + BLOCKSIZE
  }

  lemma {:induction false} OffsetIs(k: nat)
    ensures Offset(k) == k * BLOCKSIZE
  {
    if k > 0 {
      OffsetIs(k - 1);
      Succ(k - 1, BLOCKSIZE);
    }
  }

  lemma {:induction false} OffsetMono(i: nat, j: nat)
    requires i <= j
    ensures Offset(i) <= Offset(j)
    ensures i < j ==> Offset(i + 1) <= Offset(j)
    decreases j
  {
    if i < j {
      OffsetMono(i, j - 1);
    }
  }

  /** The block that offset `o` lies in. */
  ghost function BlockOf(o: nat): nat {
    if o < BLOCKSIZE then 0 else BlockOf(o - BLOCKSIZE) + 1
  }

  lemma {:induction false} InBlock(o: nat)
    ensures Offset(BlockOf(o)) <= o < Offset(BlockOf(o) + 1)
  {
    if o >= BLOCKSIZE {
      InBlock(o - BLOCKSIZE);
    }
  }

  lemma {:induction false} BlockIs(o: nat, k: nat)
    requires Offset(k) <= o < Offset(k + 1)
    ensures BlockOf(o) == k
  {
    InBlock(o);
    var q := BlockOf(o);
    if q < k {
      OffsetMono(q + 1, k);
    } else if k < q {
      OffsetMono(k + 1, q);
    }
  }

  method OffsetToBlock(offset: nat) returns (k: nat)
    ensures k == BlockOf(offset)
  {
    k := offset / BLOCKSIZE;
    Divide(offset, BLOCKSIZE);
    OffsetIs(k);
    BlockIs(offset, k);
  }

  /** Data blocks a file of `size` bytes has. */
  ghost function BlocksFor(size: nat): nat {
    if size == 0 then 0 else BlockOf(size - 1) + 1
  }

  method SizeToBlocks(size: nat) returns (n: nat)
    ensures n == BlocksFor(size)
  {
    var k := OffsetToBlock(size);
    n := k + if size % BLOCKSIZE != 0 then 1 else 0;
    RoundedUp(size, k);
  }

  lemma {:induction false} RoundedUp(size: nat, k: nat)
    requires k == BlockOf(size)
    ensures BlocksFor(size) == k + if size % BLOCKSIZE != 0 then 1 else 0
  {
    InBlock(size);
    OffsetIs(k);
    DivideUnique(size, BLOCKSIZE, k, size - k * BLOCKSIZE);
    if size % BLOCKSIZE != 0 {
      BlockIs(size - 1, k);
    } else if k > 0 {
      BlockIs(size - 1, k - 1);
    }
  }

  /** How many inode slots are given to each level of indirection. */
  datatype SlotPlan = SlotPlan(single: nat, double: nat, triple: nat)

  /** The plan the source ships. */
  const SHIPPED := SlotPlan(1, 1, 1)

  function FirstSlot(plan: SlotPlan, level: nat): nat
    requires level <= 4
  {
    if level == 0 then 0
    else if level == 1 then DIRECT
    else if level == 2 then DIRECT + plan.single
    else if level == 3 then DIRECT + plan.single + plan.double
    else DIRECT + plan.single + plan.double + plan.triple
  }

  /** First block index of each level; the source never consults the slot plan here. */
  function FirstBlock(level: nat): nat
    requires level <= 4
  {
    if level == 0 then 0
    else if level == 1 then DIRECT
    else if level == 2 then DIRECT + IndirectCount(1)
    else if level == 3 then DIRECT + IndirectCount(1) + IndirectCount(2)
    else DIRECT + IndirectCount(1) + IndirectCount(2) + IndirectCount(3)
  }

  function IndirectionLevel(block: nat): int {
    if block < FirstBlock(1) then 0
    else if block < FirstBlock(2) then 1
    else if block < FirstBlock(3) then 2
    else if block < FirstBlock(4) then 3
    else -1
  }

  function SlotLevel(plan: SlotPlan, slot: int): int {
    if slot < FirstSlot(plan, 1) then 0
    else if slot < FirstSlot(plan, 2) then 1
    else if slot < FirstSlot(plan, 3) then 2
    else if slot < FirstSlot(plan, 4) then 3
    else -1
  }

  function BlockToSlot(plan: SlotPlan, block: nat): int {
    var level := IndirectionLevel(block);
    if level < 0 then -1
    else if level == 0 then block
    else FirstSlot(plan, level) + (block - FirstBlock(level)) / IndirectCount(level)
  }

  function SlotToFirstBlock(plan: SlotPlan, slot: int): int {
    var level := SlotLevel(plan, slot);
    if level < 0 then -1
    else if level == 0 then slot
    else FirstBlock(level) + (slot - FirstSlot(plan, level)) * IndirectCount(level)
  }

  /** What every caller of the four functions relies on: a reachable block belongs to the
      slot whose span holds it, that slot has the block's level, and every slot is reached. */
  ghost predicate SlotsAgree(plan: SlotPlan) {
    && (forall block: nat | block < FirstBlock(4) :: Located(plan, block))
    && (forall slot | 0 <= slot < FirstSlot(plan, 4) ::
          SlotToFirstBlock(plan, slot) >= 0 && BlockToSlot(plan, SlotToFirstBlock(plan, slot)) == slot)
  }

  ghost predicate Located(plan: SlotPlan, block: nat) {
    var level, slot := IndirectionLevel(block), BlockToSlot(plan, block);
    && level >= 0
    && 0 <= slot < FirstSlot(plan, 4)
    && SlotLevel(plan, slot) == level
    && SlotToFirstBlock(plan, slot) <= block < SlotToFirstBlock(plan, slot) + IndirectCount(level)
  }

  lemma {:induction false} SmallQuotient(x: nat, d: Positive)
    requires x < d
    ensures x / d == 0
  {
  }

  lemma {:induction false} FirstOfLevel(plan: SlotPlan, level: nat, extra: nat)
    requires 1 <= level <= 3
    requires FirstSlot(plan, level) + extra < FirstSlot(plan, level + 1) && extra <= 1
    ensures SlotLevel(plan, FirstSlot(plan, level) + extra) == level
    ensures SlotToFirstBlock(plan, FirstSlot(plan, level) + extra)
         == if extra == 0 then FirstBlock(level) else FirstBlock(level + 1)
  {
    var count: int := IndirectCount(level);
    assert 0 * count == 0 && 1 * count == count;
  }

  lemma {:induction false} UnitPlanBlock(block: nat)
    requires block < FirstBlock(4)
    ensures Located(SHIPPED, block)
  {
    var level := IndirectionLevel(block);
    if level != 0 {
      var count := IndirectCount(level);
      SmallQuotient(block - FirstBlock(level), count);
      FirstOfLevel(SHIPPED, level, 0);
    }
  }

  lemma {:induction false} UnitPlanSlot(slot: nat)
    requires slot < FirstSlot(SHIPPED, 4)
    ensures SlotToFirstBlock(SHIPPED, slot) >= 0
    ensures BlockToSlot(SHIPPED, SlotToFirstBlock(SHIPPED, slot)) == slot
  {
    var level := SlotLevel(SHIPPED, slot);
    if level != 0 {
      var count := IndirectCount(level);
      FirstOfLevel(SHIPPED, level, 0);
      SmallQuotient(0, count);
    }
  }

  lemma {:induction false} UnitPlanAgrees()
    ensures SlotsAgree(SHIPPED)
  {
    forall block: nat | block < FirstBlock(4) ensures Located(SHIPPED, block) {
      UnitPlanBlock(block);
    }
    forall slot | 0 <= slot < FirstSlot(SHIPPED, 4)
      ensures SlotToFirstBlock(SHIPPED, slot) >= 0
      ensures BlockToSlot(SHIPPED, SlotToFirstBlock(SHIPPED, slot)) == slot
    {
      UnitPlanSlot(slot);
    }
  }

  /** A level with no slot loses its blocks; a second slot starts where the next level does. */
  lemma {:induction false} OtherPlanDisagrees(plan: SlotPlan, level: nat)
    requires 1 <= level <= 3
    requires FirstSlot(plan, level + 1) != FirstSlot(plan, level) + 1
    ensures !SlotsAgree(plan)
  {
    if FirstSlot(plan, level + 1) == FirstSlot(plan, level) {
      var count := IndirectCount(level);
      SmallQuotient(0, count);
      assert BlockToSlot(plan, FirstBlock(level)) == FirstSlot(plan, level);
      assert SlotLevel(plan, FirstSlot(plan, level)) != level;
      assert !Located(plan, FirstBlock(level));
    } else {
      FirstOfLevel(plan, level, 1);
      assert IndirectionLevel(FirstBlock(level + 1)) != level;
      if level < 3 {
        SmallQuotient(0, IndirectCount(level + 1));
      }
    }
  }

  /** The slot counts are offered as configuration, but the block numbering only ever
      accounts for one slot of each level: any other plan breaks the conversions. */
  lemma {:induction false} SlotPlanExactCondition(plan: SlotPlan)
    ensures SlotsAgree(plan) <==> plan == SHIPPED
  {
    UnitPlanAgrees();
    forall level | 1 <= level <= 3 && FirstSlot(plan, level + 1) != FirstSlot(plan, level) + 1
      ensures !SlotsAgree(plan)
    {
      OtherPlanDisagrees(plan, level);
    }
    assert FirstSlot(plan, 1 + 1) - FirstSlot(plan, 1) == plan.single;
    assert FirstSlot(plan, 2 + 1) - FirstSlot(plan, 2) == plan.double;
    assert FirstSlot(plan, 3 + 1) - FirstSlot(plan, 3) == plan.triple;
  }

  lemma {:induction false} Power(level: nat)
    requires level > 0
    ensures IndirectCount(level) == N * IndirectCount(level - 1)
  {
    StartIs(level, N);
  }

  /** The counts of the source's table. */
  lemma {:induction false} IndirectCounts()
    ensures IndirectCount(0) == 1 && IndirectCount(1) == N
    ensures IndirectCount(2) == N * N && IndirectCount(3) == N * (N * N)
  {
    var two, three := IndirectCount(2), IndirectCount(3);
    Power(1);
    Power(2);
    assert two == N * N;
    Power(3);
  }
}
