/** The in-core records of the segment/block store. */
module Records {
  import opened Wrappers

  /**
   * struct metablock: a cache block's global index (constant after
   * initialisation), the backing-store sector it caches (the lookup key) and
   * its per-sector dirty bitmap (0 = clean, 255 = all eight sectors dirty).
   * Its hash-chain linkage is kept by the hash table.
   */
  datatype Metablock = Metablock(idx: nat, sector: u64, dirtyBits: u8)

  /**
   * struct segment_header: the segment's id (0 = never written), the number
   * of valid blocks, the count of migrations reading it, and the constant
   * index of its first block and sector of its header.
   */
  datatype SegmentHeader = SegmentHeader(id: u64, length: nat, nrInflightIos: nat,
                                         startIdx: nat, startSector: nat)
}
