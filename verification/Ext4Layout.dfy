/**
 The on-disk records of the ext4 driver, as values.

 A block holds one kind of record: file bytes, a depth-0 extent node, a block bitmap, a run of
 group descriptors, or the superblock.
 */
module Ext4Layout {

  type byte = x: int | 0 <= x < 256

  /** EXT4_MAX_INLINE_EXTENTS: entries that fit beside the header in an inode's i_block area. */
  const MAX_INLINE: nat := 4

  /** The longest written run one Extent can describe. */
  const MAX_RUN: nat := 32768

  /** An Extent as stored: `rawLen` is ee_len, whose values above 32768 mark an unwritten run. */
  datatype Extent = Extent(block: nat, rawLen: nat, start: nat) {

    predicate Unwritten() {
      rawLen > MAX_RUN
    }

    function Len(): nat {
      if Unwritten() then rawLen - MAX_RUN else rawLen
    }

    /** The 16 bits count up to 32768 blocks, and once more with the mark. */
    lemma LenRange()
      ensures Len() % 32768 == rawLen % 32768 && (rawLen > 0 ==> Len() > 0) && (rawLen <= 65536 ==> Len() <= 32768)
    {
    }
  }

  datatype GroupDesc = GroupDesc(bitmap: nat, freeBlocks: nat)

  datatype Block =
    | Bytes(data: seq<byte>)
    | Leaf(entries: seq<Extent>, max: nat)
    | Bitmap(bits: seq<bool>)
    | Descriptors(descs: seq<GroupDesc>)
    | Super(freeBlocks: nat)
}
