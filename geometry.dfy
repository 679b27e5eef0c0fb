/**
 * Layout of the cache device: a 1 MiB (2048-sector) superblock region
 * followed by a ring of `nrSegments` segments of 2^order sectors each. A
 * segment is one 4 KiB header block followed by `NrCachesInseg` 4 KiB cache
 * blocks, so NrCachesInseg = 2^(order-3) - 1. Cache blocks are numbered
 * globally; block idx belongs to segment idx / NrCachesInseg.
 */
module Geometry {
  import opened Wrappers

  /** 1 << 11: sectors reserved for the superblock region. */
  const SuperblockSectors: nat := 2048

  /** 2^k: the value of `1 << k`. */
  function Pow2(k: nat): (r: nat)
    ensures r >= 1
  {
    if k == 0 then 1 else 2 * Pow2(k - 1)
  }

  lemma {:induction false} Pow2Add(a: nat, b: nat)
    ensures Pow2(a + b) == Pow2(a) * Pow2(b)
  {
    if a > 0 {
      Pow2Add(a - 1, b);
    }
  }

  /**
   * The geometry fixed at bring-up: segment_size_order and nr_segments. The
   * order lies in 4..10 (segments of 8 KiB to 512 KiB), which keeps
   * NrCachesInseg in 1..127: within the u8 counters (segment length, the loop
   * index of discard_caches_inseg) and the header block's entry area. This
   * range is assumed: no code of the metadata layer checks it. At least one
   * segment is assumed too, because segment_id_to_idx and ht_get_head divide
   * by the number of segments and of blocks; calc_nr_segments does not
   * guarantee it (NoWholeSegment).
   */
  datatype Layout = Layout(segmentSizeOrder: nat, nrSegments: nat)
  {
    predicate Valid()
    {
      4 <= segmentSizeOrder <= 10 && 1 <= nrSegments
    }
  }

  /** wb->nr_caches_inseg = (1 << (order - 3)) - 1 (harmless_init). */
  function NrCachesInseg(order: nat): nat
    requires 4 <= order
  {
    Pow2(order - 3) - 1
  }

  /** wb->nr_caches = nr_segments * nr_caches_inseg (harmless_init). */
  function NrCaches(l: Layout): nat
    requires l.Valid()
  {
    l.nrSegments * NrCachesInseg(l.segmentSizeOrder)
  }

  /** The cache blocks and the header block fill the segment exactly. */
  lemma SegmentHoldsBlocks(order: nat)
    requires 4 <= order
    ensures 1 <= NrCachesInseg(order)
    ensures 8 * (NrCachesInseg(order) + 1) == Pow2(order)
    ensures order <= 10 ==> NrCachesInseg(order) <= 127
  {
    Pow2Add(3, order - 3);
    assert Pow2(3) == 8;
    Pow2Add(1, order - 4);
    if order <= 10 {
      Pow2Add(order - 3, 10 - order);
      assert Pow2(7) == 128;
    }
  }

  /**
   * calc_nr_segments: (devsize - 2048) / 2^order, computed in u64 and returned
   * as u32 (so a device smaller than the superblock region wraps around).
   */
  function CalcNrSegments(devsize: u64, order: nat): (r: u32)
  {
    var avail := (devsize + U64Limit - SuperblockSectors) % U64Limit;
    (avail / Pow2(order)) % U32Limit
  }

  /**
   * calc_segment_header_start AS WRITTEN: `(1 << 11) + (1 << order) * k`
   * with k a u32. `1 << order` is an int, so the product and the sum are
   * computed in 32-bit unsigned arithmetic before being widened to sector_t.
   */
  function CalcSegmentHeaderStartAsWritten(order: nat, k: u32): u32
  {
    (SuperblockSectors + (Pow2(order) * k) % U32Limit) % U32Limit
  }

  /** calc_segment_header_start, as intended: 2048 + 2^order * k sectors, in 64 bits. */
  function CalcSegmentHeaderStart(order: nat, k: nat): nat
  {
    SuperblockSectors + Pow2(order) * k
  }

  /**
   * The as-written computation wraps once the ring reaches sector 2^32
   * (a cache device of 2 TiB): with 512 KiB segments, slot 2^22 gets the
   * start sector of slot 0.
   */
  lemma SegmentStartWrapsAt2TiB()
    ensures CalcSegmentHeaderStartAsWritten(10, 0x40_0000) == CalcSegmentHeaderStartAsWritten(10, 0)
    ensures CalcSegmentHeaderStart(10, 0x40_0000) != CalcSegmentHeaderStart(10, 0)
  {
    Pow2Add(10, 22);
    assert Pow2(10) == 1024;
    assert Pow2(10) * 0x40_0000 == U32Limit;
  }

  /** Below sector 2^32 the as-written and the intended computations agree. */
  lemma SegmentStartAgreesBelow2TiB(order: nat, k: u32)
    requires CalcSegmentHeaderStart(order, k) < U32Limit
    ensures CalcSegmentHeaderStartAsWritten(order, k) == CalcSegmentHeaderStart(order, k)
  {
  }

  /**
   * Segments lie after the superblock region, in ring order, without
   * overlapping: segment k occupies [start(k), start(k) + 2^order).
   */
  lemma SegmentRangesDisjoint(order: nat, k1: nat, k2: nat)
    requires k1 < k2
    ensures SuperblockSectors <= CalcSegmentHeaderStart(order, k1)
    ensures CalcSegmentHeaderStart(order, k1) + Pow2(order) <= CalcSegmentHeaderStart(order, k2)
  {
    MulLeft(Pow2(order), k1 + 1, k2);
  }

  /** Every segment counted by calc_nr_segments lies inside the device. */
  lemma SegmentsFitDevice(devsize: u64, order: nat, k: nat)
    requires SuperblockSectors <= devsize
    requires k < CalcNrSegments(devsize, order)
    ensures CalcSegmentHeaderStart(order, k) + Pow2(order) <= devsize
  {
    var avail: nat := devsize - SuperblockSectors;
    DivModUnique(devsize + U64Limit - SuperblockSectors, U64Limit, 1, avail);
    WholeSegmentsFit(avail, Pow2(order), k);
  }

  /**
   * On a device smaller than the superblock region the u64 subtraction of
   * calc_nr_segments wraps: an empty device counts 2^32 - 2 segments of
   * 512 KiB, none of which lies inside it.
   */
  lemma SmallDeviceCountWraps()
    ensures CalcNrSegments(0, 10) == U32Limit - 2
    ensures CalcSegmentHeaderStart(10, 0) + Pow2(10) > 0
  {
    assert Pow2(10) == 1024;
    DivModUnique(U64Limit - SuperblockSectors, 1024, 0x3F_FFFF_FFFF_FFFE, 0);
    DivModUnique(0x3F_FFFF_FFFF_FFFE, U32Limit, 0x3F_FFFF, U32Limit - 2);
  }

  /**
   * A device with room for the superblock region but not for one whole
   * segment gets no segments at all.
   */
  lemma NoWholeSegment(devsize: u64, order: nat)
    requires SuperblockSectors <= devsize < SuperblockSectors + Pow2(order)
    ensures CalcNrSegments(devsize, order) == 0
  {
    var avail: nat := devsize - SuperblockSectors;
    DivModUnique(devsize + U64Limit - SuperblockSectors, U64Limit, 1, avail);
    DivModUnique(avail, Pow2(order), 0, avail);
  }

  /** k below (avail / p) mod 2^32 means k + 1 whole p-sized pieces fit in avail. */
  lemma WholeSegmentsFit(avail: nat, p: nat, k: nat)
    requires 1 <= p
    requires k < (avail / p) % U32Limit
    ensures p * (k + 1) <= avail
  {
    var q := avail / p;
    ModBelow(q, U32Limit);
    MulLeft(p, k + 1, q);
    assert avail == q * p + avail % p;
  }

  lemma MulLeft(p: nat, a: nat, b: nat)
    requires a <= b
    ensures p * a <= p * b
  {
  }

  /** The block ranges k*n .. k*n+n-1 of two different segments do not overlap. */
  lemma BlockRangesDisjoint(j: nat, k: nat, n: nat)
    requires j != k
    ensures j * n + n <= k * n || k * n + n <= j * n
  {
    if j < k {
      MulLeft(n, j + 1, k);
    } else {
      MulLeft(n, k + 1, j);
    }
  }

  /** Quotient and remainder are determined by a = q * n + r with 0 <= r < n. */
  lemma DivModUnique(a: nat, n: nat, q: nat, r: nat)
    requires 0 <= r < n && a == q * n + r
    ensures a / n == q && a % n == r
  {
    var q0, r0 := a / n, a % n;
    assert a == q0 * n + r0;
    if q0 < q {
      MulLeft(n, q0 + 1, q);
    } else if q < q0 {
      MulLeft(n, q + 1, q0);
    }
  }

  lemma ModBelow(a: nat, m: nat)
    requires 1 <= m
    ensures a % m <= a
  {
    if a < m {
      DivModUnique(a, m, 0, a);
    }
  }

  /** segment_id_to_idx: (id - 1) mod nr_segments, the subtraction in u64 (id 0 wraps). */
  function SegmentIdToIdx(id: u64, nrSegments: nat): (slot: nat)
    requires 1 <= nrSegments
    ensures slot < nrSegments
  {
    (if id == 0 then U64Limit - 1 else id - 1) % nrSegments
  }

  /** The u64 increment `id + 1`. */
  function Inc64(id: u64): u64
  {
    (id + 1) % U64Limit
  }

  /** Ids one ring-length apart share a slot. */
  lemma SlotPeriodic(id: u64, nrSegments: nat)
    requires 1 <= nrSegments && 1 <= id && id + nrSegments < U64Limit
    ensures SegmentIdToIdx(id + nrSegments, nrSegments) == SegmentIdToIdx(id, nrSegments)
  {
    var a := id - 1;
    DivModUnique(a + nrSegments, nrSegments, a / nrSegments + 1, a % nrSegments);
  }

  /** Ids 1..nr_segments hit every slot exactly once (slot s holds id s + 1). */
  lemma SlotBijection(nrSegments: nat, id1: u64, id2: u64, s: nat)
    requires 1 <= nrSegments < U64Limit
    requires 1 <= id1 <= nrSegments && 1 <= id2 <= nrSegments
    requires s < nrSegments
    ensures SegmentIdToIdx(s + 1, nrSegments) == s
    ensures SegmentIdToIdx(id1, nrSegments) == SegmentIdToIdx(id2, nrSegments) ==> id1 == id2
  {
    DivModUnique(s, nrSegments, 0, s);
    DivModUnique(id1 - 1, nrSegments, 0, id1 - 1);
    DivModUnique(id2 - 1, nrSegments, 0, id2 - 1);
  }

  /**
   * The slot of the id after `id` is id mod nr_segments, also when the u64
   * increment wraps to 0 (the first slot apply_valid_segments visits).
   */
  lemma SlotOfNextId(id: u64, nrSegments: nat)
    requires 1 <= nrSegments
    ensures SegmentIdToIdx(Inc64(id), nrSegments) == id % nrSegments
  {
  }

  /** mb_idx_inseg: the position of block idx inside its segment. */
  function MbIdxInseg(idx: nat, n: nat): nat
    requires 1 <= n
  {
    idx % n
  }

  /** mb_at: the segment and in-segment position that hold block idx. */
  function MbAt(idx: nat, n: nat): (pos: (nat, nat))
    requires 1 <= n
  {
    (idx / n, idx % n)
  }

  /**
   * mb_at resolves block idx to entry idx mod n of segment idx / n; the
   * inverse map is seg * n + inseg, and blocks below nr_caches land in
   * segments below nr_segments.
   */
  lemma MbAtInverse(idx: nat, n: nat, nrSegments: nat)
    requires 1 <= n
    ensures MbAt(idx, n).1 < n
    ensures MbAt(idx, n).0 * n + MbAt(idx, n).1 == idx
    ensures MbAt(idx, n).1 == MbIdxInseg(idx, n)
    ensures idx < nrSegments * n <==> MbAt(idx, n).0 < nrSegments
  {
    var q := idx / n;
    if idx < nrSegments * n && q >= nrSegments {
      MulLeft(n, nrSegments, q);
    }
    if q < nrSegments {
      MulLeft(n, q + 1, nrSegments);
    }
  }

  /** Block (k, j) of the embedded array has global index k * n + j. */
  lemma MbAtOfPosition(k: nat, j: nat, n: nat)
    requires 1 <= n && j < n
    ensures MbAt(k * n + j, n) == (k, j)
  {
    DivModUnique(k * n + j, n, k, j);
  }

  /** calc_mb_start_sector: the block's data starts 8 * (1 + inseg) sectors into its segment. */
  function CalcMbStartSector(segStart: nat, idx: nat, n: nat): nat
    requires 1 <= n
  {
    segStart + 8 * (1 + MbIdxInseg(idx, n))
  }

  /**
   * Every block's 8 data sectors lie inside its segment, after the header
   * block; this holds for every segment size, one-block segments included.
   */
  lemma MbSectorInsideSegment(order: nat, segStart: nat, idx: nat)
    requires 4 <= order
    ensures segStart + 8 <= CalcMbStartSector(segStart, idx, NrCachesInseg(order))
    ensures CalcMbStartSector(segStart, idx, NrCachesInseg(order)) + 8 <= segStart + Pow2(order)
  {
    SegmentHoldsBlocks(order);
  }

  /**
   * Two blocks at different positions of a segment do not overlap (and
   * both lie inside it).
   */
  lemma MbSectorsInsideSegment(order: nat, segStart: nat, idx1: nat, idx2: nat)
    requires 4 <= order
    requires MbIdxInseg(idx1, NrCachesInseg(order)) < MbIdxInseg(idx2, NrCachesInseg(order))
    ensures segStart + 8 <= CalcMbStartSector(segStart, idx1, NrCachesInseg(order))
    ensures CalcMbStartSector(segStart, idx1, NrCachesInseg(order)) + 8
            <= CalcMbStartSector(segStart, idx2, NrCachesInseg(order))
    ensures CalcMbStartSector(segStart, idx2, NrCachesInseg(order)) + 8 <= segStart + Pow2(order)
  {
    SegmentHoldsBlocks(order);
  }

  /** is_on_buffer: whether block idx belongs to the segment whose first block is startIdx. */
  predicate IsOnBuffer(startIdx: nat, idx: nat, n: nat)
  {
    startIdx <= idx < startIdx + n
  }

  /** For segment k (start_idx = k * n), is_on_buffer(idx) holds exactly when mb_at puts idx in segment k. */
  lemma IsOnBufferIffOwnSegment(k: nat, idx: nat, n: nat)
    requires 1 <= n
    ensures IsOnBuffer(k * n, idx, n) <==> MbAt(idx, n).0 == k
  {
    var q := idx / n;
    assert idx == q * n + idx % n;
    if q < k {
      MulLeft(n, q + 1, k);
    } else if q > k {
      MulLeft(n, k + 1, q);
    }
  }
}
