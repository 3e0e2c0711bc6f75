// On-disk blocks, seen as records.

module Blocks {
  import opened Geometry

  newtype Byte = x: int | 0 <= x < 256

  /** Link counts are unsigned 64-bit numbers. */
  const NLINKS: int := 0x1_0000_0000_0000_0000

  /** The variable part of an inode block: owner, group and time stamps are not modelled. */
  datatype Inode = Inode(isDir: bool, nlinks: nat, size: nat, blocks: seq<int>)

  datatype Block =
    | Super(ilistSize: nat, freelistStart: int, inoFreelistStart: int, freeBlocks: int, freeInodes: int)
    | FreelistBlock(next: int, blocks: seq<int>)
    | IlistBlock(entries: seq<int>)
    | InodeBlock(inode: Inode)
    | Indirect(ptrs: seq<int>)
    | DataBlock(bytes: seq<Byte>)

  type Layout = f: Block -> seq<Byte> | forall b :: |f(b)| == BLOCKSIZE
    witness ((b: Block) => seq(BLOCKSIZE, _ => 0 as Byte))

  /** How records are laid out as bytes; nothing is assumed about it but the length. */
  const LAYOUT: Layout

  /** The bytes seen when a block is read as file data, whatever was last stored there. */
  function Bytes(b: Block): (r: seq<Byte>)
    ensures |r| == BLOCKSIZE
  {
    if b.DataBlock? && |b.bytes| == BLOCKSIZE then b.bytes else LAYOUT(b)
  }

  type Image = seq<Block>

  /** True of every number. Definitions that start with it stay folded in proofs that do not
      mention it. */
  ghost predicate Look(at: int) {
    true
  }

  /** How often `x` occurs in a set, or is `y`: blocks are counted, one number at a time. */
  ghost function In(s: set<int>, x: int): nat {
    if x in s then 1 else 0
  }

  ghost function One(y: int, x: int): nat {
    if x == y then 1 else 0
  }

  /** The superblock is the same but for the free-block list. */
  ghost predicate SuperKept(before: Block, after: Block) {
    before.Super? ==>
      && after.Super? && after.ilistSize == before.ilistSize
      && after.inoFreelistStart == before.inoFreelistStart && after.freeInodes == before.freeInodes
  }
}
