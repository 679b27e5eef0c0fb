/**
 * The in-core metadata of a cache device (the metadata part of struct
 * wb_device): the segment/block store, the hash table from backing-store
 * sector to cache block, and the replay and segment-cursor state.
 *
 * Segment headers and their embedded metablock arrays live in a paged large
 * array in the driver. Here the paged array is allocated for its footprint
 * and its contents are two flat arrays: `segs[k]` is segment k's header and
 * `mbs[b]` is cache block b, so that segment k's embedded array is
 * mbs[k * n .. k * n + n) with n = nr_caches_inseg. The hash table's heads
 * are `buckets[0 .. htsize)`, the null head is `buckets[htsize]`, and
 * `chainOf[b]` is the head block b is linked on (the node's back-link).
 */
module Metadata {
  import opened Wrappers
  import opened Heap
  import opened Geometry
  import opened Records
  import opened Chains
  import opened Codec
  import opened Replay
  import LA = LargeArray

  /** The byte sizes of the structs the large arrays hold (their layout is not part of this model). */
  datatype StructSizes = StructSizes(segmentHeader: nat, metablock: nat, htHead: nat)

  class Cache {
    const segmentSizeOrder: nat
    const nrSegments: nat
    const nrCachesInseg: nat
    const nrCaches: nat

    var segmentHeaderArray: LA.LargeArray?
    var segs: array<SegmentHeader>
    var mbs: array<Metablock>

    var htable: LA.LargeArray?
    var htsize: nat
    var buckets: array<seq<nat>>
    var chainOf: seq<nat>

    var nrDirtyCaches: nat
    var lastFlushedId: u64
    var lastMigratedId: u64
    /** The segment being filled (a slot index) and the next block to write in it. */
    var currentSeg: nat
    var cursor: nat
    /** The RAM buffer in use (an index into the pool). */
    var currentRambuf: nat

    /** The geometry harmless_init fixes. */
    predicate GeometryValid()
    {
      4 <= segmentSizeOrder <= 10 && 1 <= nrSegments &&
      nrCachesInseg == NrCachesInseg(segmentSizeOrder) && 1 <= nrCachesInseg <= 127 &&
      nrCaches == nrSegments * nrCachesInseg && nrSegments <= nrCaches
    }

    /** The constants init_segment_header_array and mb_array_empty_init set up. */
    ghost predicate StoreValid()
      reads this`segs, this`mbs, segs, mbs
    {
      GeometryValid() &&
      segs.Length == nrSegments && mbs.Length == nrCaches &&
      (forall k :: 0 <= k < nrSegments ==>
         segs[k].startIdx == k * nrCachesInseg && segs[k].startIdx + nrCachesInseg <= nrCaches &&
         segs[k].startSector == CalcSegmentHeaderStart(segmentSizeOrder, k)) &&
      (forall b :: 0 <= b < nrCaches ==> mbs[b].idx == b)
    }

    /** The hash table: nr_caches buckets plus the null head, every block on exactly one chain. */
    ghost predicate HtValid()
      reads this`htsize, this`buckets, this`chainOf, buckets
    {
      htsize == nrCaches && 1 <= htsize && buckets.Length == htsize + 1 && |chainOf| == nrCaches &&
      Partition(buckets[..], chainOf)
    }

    /** harmless_init: the geometry computed from the cache device's size and segment_size_order. */
    constructor (devsize: u64, order: nat)
      requires 4 <= order <= 10 && 1 <= CalcNrSegments(devsize, order)
      ensures GeometryValid()
      ensures segmentSizeOrder == order && nrSegments == CalcNrSegments(devsize, order)
      ensures nrCachesInseg == NrCachesInseg(order) && nrCaches == nrSegments * nrCachesInseg
    {
      segmentSizeOrder := order;
      nrSegments := CalcNrSegments(devsize, order);
      nrCachesInseg := NrCachesInseg(order);
      nrCaches := CalcNrSegments(devsize, order) * NrCachesInseg(order);
      new;
      SegmentHoldsBlocks(order);
      MulLeft(nrSegments, 1, nrCachesInseg);
      segmentHeaderArray := null;
      segs := new SegmentHeader[0];
      mbs := new Metablock[0];
      htable := null;
      buckets := new seq<nat>[0];
    }

    /**
     * init_segment_header_array: allocate the paged array of segment headers
     * (each followed by its nr_caches_inseg metablocks), give every segment
     * id 0, length 0, no in-flight I/O and its constant first block and start
     * sector, then reset every block. -ENOMEM when the array cannot be
     * allocated, with nothing allocated.
     */
    method InitSegmentHeaderArray(heap: Allocator, sizes: StructSizes) returns (r: int)
      requires GeometryValid() && heap.Valid()
      requires 0 < sizes.segmentHeader + sizes.metablock * nrCachesInseg <= LA.AllocSize
      modifies heap, this`segmentHeaderArray, this`segs, this`mbs
      ensures heap.Valid()
      ensures r == 0 || r == -ENOMEM
      ensures r != 0 ==>
                heap.live == old(heap.live) && segmentHeaderArray == old(segmentHeaderArray) &&
                segs == old(segs) && mbs == old(mbs)
      ensures r == 0 ==>
                segmentHeaderArray != null && fresh(segmentHeaderArray) &&
                segmentHeaderArray.nrElems == nrSegments &&
                segmentHeaderArray.elemsize == sizes.segmentHeader + sizes.metablock * nrCachesInseg &&
                fresh(segs) && fresh(mbs) && StoreValid() &&
                (forall k :: 0 <= k < nrSegments ==>
                   segs[k].id == 0 && segs[k].length == 0 && segs[k].nrInflightIos == 0) &&
                (forall b :: 0 <= b < nrCaches ==> mbs[b].dirtyBits == 0)
    {
      var arr := LA.Alloc(heap, sizes.segmentHeader + sizes.metablock * nrCachesInseg, nrSegments);
      if arr == null {
        return -ENOMEM;
      }
      segmentHeaderArray := arr;
      segs := new SegmentHeader[nrSegments];
      mbs := new Metablock[nrCaches](_ => Metablock(0, 0, 0));
      InitSegments();
      MbArrayEmptyInit();
      r := 0;
    }

    /** The loop of init_segment_header_array over the segments. */
    method InitSegments()
      requires GeometryValid() && segs.Length == nrSegments
      modifies segs
      ensures forall k :: 0 <= k < nrSegments ==>
                segs[k] == SegmentHeader(0, 0, 0, nrCachesInseg * k, CalcSegmentHeaderStart(segmentSizeOrder, k)) &&
                segs[k].startIdx + nrCachesInseg <= nrCaches
    {
      var k := 0;
      while k < nrSegments
        invariant 0 <= k <= nrSegments
        invariant forall j :: 0 <= j < k ==>
                    segs[j] == SegmentHeader(0, 0, 0, nrCachesInseg * j,
                                             CalcSegmentHeaderStart(segmentSizeOrder, j)) &&
                    segs[j].startIdx + nrCachesInseg <= nrCaches
      {
        MulLeft(nrCachesInseg, k + 1, nrSegments);
        segs[k] := SegmentHeader(0, 0, 0, nrCachesInseg * k, CalcSegmentHeaderStart(segmentSizeOrder, k));
        k := k + 1;
      }
    }

    /**
     * mb_array_empty_init: every block, reached through mb_at, gets its own
     * index and no dirty bits; its sector is left as it was.
     */
    method MbArrayEmptyInit()
      requires GeometryValid() && mbs.Length == nrCaches
      modifies mbs
      ensures forall b :: 0 <= b < nrCaches ==> mbs[b] == Metablock(b, old(mbs[b].sector), 0)
    {
      var i := 0;
      while i < nrCaches
        invariant 0 <= i <= nrCaches
        invariant forall b :: 0 <= b < i ==> mbs[b] == Metablock(b, old(mbs[b].sector), 0)
        invariant forall b :: i <= b < nrCaches ==> mbs[b] == old(mbs[b])
      {
        var (k, j) := MbAt(i, nrCachesInseg);
        MbAtInverse(i, nrCachesInseg, nrSegments);
        mbs[k * nrCachesInseg + j] := Metablock(i, mbs[i].sector, 0);
        i := i + 1;
      }
    }

    /**
     * ht_empty_init: htsize = nr_caches, nr_caches + 1 empty heads (the last
     * is the null head), then every block pushed on the null head in index
     * order, so the null chain lists nr_caches - 1 down to 0. -ENOMEM when
     * the heads cannot be allocated.
     */
    method HtEmptyInit(heap: Allocator, sizes: StructSizes) returns (r: int)
      requires GeometryValid() && heap.Valid() && 0 < sizes.htHead <= LA.AllocSize
      modifies heap, this`htsize, this`htable, this`buckets, this`chainOf
      ensures heap.Valid()
      ensures htsize == nrCaches
      ensures r == 0 || r == -ENOMEM
      ensures r != 0 ==>
                heap.live == old(heap.live) && htable == old(htable) &&
                buckets == old(buckets) && chainOf == old(chainOf)
      ensures r == 0 ==>
                htable != null && fresh(htable) && htable.nrElems == nrCaches + 1 &&
                fresh(buckets) && HtValid() &&
                buckets[htsize] == Descending(0, nrCaches) &&
                (forall h :: 0 <= h < htsize ==> buckets[h] == []) &&
                (forall b :: 0 <= b < nrCaches ==> chainOf[b] == htsize)
    {
      htsize := nrCaches;
      var arr := LA.Alloc(heap, sizes.htHead, htsize + 1);
      if arr == null {
        return -ENOMEM;
      }
      htable := arr;
      buckets := new seq<nat>[htsize + 1];
      InitHeads();
      LinkAllToNullHead();
      r := 0;
    }

    /** The loop of ht_empty_init that empties every head. */
    method InitHeads()
      modifies buckets
      ensures forall h :: 0 <= h < buckets.Length ==> buckets[h] == []
    {
      var i := 0;
      while i < buckets.Length
        invariant 0 <= i <= buckets.Length
        invariant forall h :: 0 <= h < i ==> buckets[h] == []
      {
        buckets[i] := [];
        i := i + 1;
      }
    }

    /** The loop of ht_empty_init that pushes every block on the null head. */
    method LinkAllToNullHead()
      requires GeometryValid() && htsize == nrCaches && buckets.Length == htsize + 1
      requires forall h :: 0 <= h < buckets.Length ==> buckets[h] == []
      modifies buckets, this`chainOf
      ensures HtValid()
      ensures buckets[htsize] == Descending(0, nrCaches)
      ensures forall h :: 0 <= h < htsize ==> buckets[h] == []
      ensures forall b :: 0 <= b < nrCaches ==> chainOf[b] == htsize
    {
      chainOf := [];
      var idx := 0;
      while idx < nrCaches
        invariant 0 <= idx <= nrCaches
        invariant buckets[htsize] == Descending(0, idx)
        invariant forall h :: 0 <= h < htsize ==> buckets[h] == []
        invariant |chainOf| == idx && forall b :: 0 <= b < idx ==> chainOf[b] == htsize
      {
        buckets[htsize] := [idx] + buckets[htsize];
        chainOf := chainOf + [htsize];
        idx := idx + 1;
      }
      assert Partition(buckets[..], chainOf) by {
        forall b | 0 <= b < nrCaches
          ensures b in buckets[..][chainOf[b]]
        {
          assert b in Descending(0, nrCaches);
        }
      }
    }

    /** ht_get_head: the bucket of a sector, sector mod htsize; never the null head. */
    function HtGetHead(key: u64): (h: nat)
      reads this`htsize
      requires 1 <= htsize
      ensures h < htsize
    {
      key % htsize
    }

    /** What ht_lookup finds for sector s in its bucket. */
    ghost function Lookup(s: nat): Option<nat>
      reads this`htsize, this`buckets, this`chainOf, this`mbs, mbs, buckets
      requires HtValid() && mbs.Length == nrCaches
    {
      PartitionBelow(buckets[..], chainOf);
      LookupIn(buckets[..], mbs[..], s)
    }

    /** ht_lookup: walk the chain from its head; the first block caching `key`, or none. */
    method HtLookup(h: nat, key: u64) returns (found: Option<nat>)
      requires StoreValid() && HtValid() && h <= htsize
      ensures found == FirstHit(buckets[h], mbs[..], key)
    {
      PartitionBelow(buckets[..], chainOf);
      var chain := buckets[h];
      assert Below(chain, mbs.Length) by {
        assert chain == buckets[..][h];
      }
      var i := 0;
      while i < |chain|
        invariant 0 <= i <= |chain|
        invariant Below(chain[i..], mbs.Length)
        invariant FirstHit(chain[i..], mbs[..], key) == FirstHit(chain, mbs[..], key)
      {
        assert chain[i..][1..] == chain[i + 1..];
        if MbHit(mbs[chain[i]], key) {
          return Some(chain[i]);
        }
        i := i + 1;
      }
      found := None;
    }

    /** ht_del: unlink block b from its chain and push it on the null head. */
    method HtDel(b: nat)
      requires HtValid() && b < nrCaches
      modifies buckets, this`chainOf
      ensures HtValid()
      ensures buckets[..] == Relink(old(buckets[..]), old(chainOf), b, htsize)
      ensures chainOf == old(chainOf)[b := htsize]
      ensures forall g :: 0 <= g < buckets.Length ==>
                buckets[..][g] == (if g == buckets.Length - 1 then [b] else []) + Unlink(old(buckets[..])[g], b)
    {
      RelinkKeepsPartition(buckets[..], chainOf, b, htsize);
      var h := chainOf[b];
      buckets[h] := Unlink(buckets[h], b);
      buckets[htsize] := [b] + buckets[htsize];
      chainOf := chainOf[b := htsize];
      assert buckets[..] == Relink(old(buckets[..]), old(chainOf), b, htsize);
    }

    /** ht_register: unlink block b, push it on the front of bucket h, and set its sector to `key`. */
    method HtRegister(h: nat, key: u64, b: nat)
      requires StoreValid() && HtValid() && h < htsize && b < nrCaches
      modifies buckets, this`chainOf, mbs
      ensures HtValid() && StoreValid()
      ensures buckets[..] == Relink(old(buckets[..]), old(chainOf), b, h)
      ensures chainOf == old(chainOf)[b := h]
      ensures mbs[..] == old(mbs[..])[b := old(mbs[b]).(sector := key)]
    {
      RelinkKeepsPartition(buckets[..], chainOf, b, h);
      var g := chainOf[b];
      buckets[g] := Unlink(buckets[g], b);
      buckets[h] := [b] + buckets[h];
      chainOf := chainOf[b := h];
      mbs[b] := mbs[b].(sector := key);
      assert buckets[..] == Relink(old(buckets[..]), old(chainOf), b, h);
    }

    /**
     * discard_caches_inseg: ht_del every block of segment k in order, so the
     * segment's blocks leave every bucket and head the null chain, last one
     * first; every other block stays on its chain, in its order.
     */
    method DiscardCachesInseg(k: nat)
      requires StoreValid() && HtValid() && k < nrSegments
      modifies buckets, this`chainOf
      ensures HtValid()
      ensures buckets[..] == Discarded(old(buckets[..]), segs[k].startIdx, nrCachesInseg)
      ensures chainOf == Detached(old(chainOf), segs[k].startIdx, nrCachesInseg, htsize)
    {
      var lo := segs[k].startIdx;
      MulLeft(nrCachesInseg, k + 1, nrSegments);
      DelRange(lo, nrCachesInseg);
    }

    /** The loop of discard_caches_inseg: ht_del blocks lo .. lo+count-1 in order. */
    method DelRange(lo: nat, count: nat)
      requires HtValid() && lo + count <= nrCaches
      modifies buckets, this`chainOf
      ensures HtValid()
      ensures buckets[..] == Discarded(old(buckets[..]), lo, count)
      ensures chainOf == Detached(old(chainOf), lo, count, htsize)
    {
      DiscardedNothing(buckets[..], lo);
      var i := 0;
      while i < count
        invariant 0 <= i <= count
        invariant HtValid()
        invariant buckets[..] == Discarded(old(buckets[..]), lo, i)
        invariant chainOf == Detached(old(chainOf), lo, i, htsize)
      {
        HtDel(lo + i);
        DiscardStep(old(buckets[..]), buckets[..], lo, i);
        assert chainOf == Detached(old(chainOf), lo, i + 1, htsize);
        i := i + 1;
      }
    }

    /** mb_to_seg: step back from a block over its in-segment position to its segment. */
    function MbToSeg(idx: nat): (k: nat)
      requires GeometryValid()
      ensures k == MbAt(idx, nrCachesInseg).0
      ensures IsOnBuffer(k * nrCachesInseg, idx, nrCachesInseg)
    {
      var n := nrCachesInseg;
      MbAtInverse(idx, n, nrSegments);
      IsOnBufferIffOwnSegment(idx / n, idx, n);
      DivModUnique(idx - MbIdxInseg(idx, n), n, idx / n, 0);
      (idx - MbIdxInseg(idx, n)) / n
    }

    /** is_on_buffer: block idx belongs to the current segment, the one the RAM buffer holds. */
    function IsOnCurrentBuffer(idx: nat): (r: bool)
      reads this`segs, this`mbs, this`currentSeg, segs, mbs
      requires StoreValid() && currentSeg < nrSegments
      ensures r <==> MbAt(idx, nrCachesInseg).0 == currentSeg
    {
      IsOnBufferIffOwnSegment(currentSeg, idx, nrCachesInseg);
      IsOnBuffer(segs[currentSeg].startIdx, idx, nrCachesInseg)
    }

    /** Every lookup finds the block of the last registration of its sector in `log`. */
    ghost predicate LooksUp(log: seq<(nat, u64)>)
      reads this`htsize, this`buckets, this`chainOf, this`mbs, mbs, buckets
      requires HtValid() && mbs.Length == nrCaches
    {
      forall s: nat :: Lookup(s) == LastWriter(log, s)
    }

    /**
     * invalidate_previous_cache, defined outside this file: it may move the
     * block `found`, which caches `key`, off its bucket onto the null head, or
     * leave it where it is. Either way no lookup of another sector changes.
     */
    method InvalidatePreviousCache(found: nat, ghost key: u64)
      requires StoreValid() && HtValid() && found < nrCaches && chainOf[found] < htsize
      requires mbs[found].sector == key
      modifies buckets, this`chainOf
      ensures HtValid()
      ensures forall x :: 0 <= x < nrCaches && x != found ==> chainOf[x] == old(chainOf[x])
      ensures forall s: nat :: s != key ==> Lookup(s) == old(Lookup(s))
    {
      var unlink: bool := *;
      if unlink {
        ghost var chains, owner := buckets[..], chainOf;
        UnlinkKeepsOtherLookups(chains, owner, mbs[..], found, key);
        HtDel(found);
        assert buckets[..] == Relink(chains, owner, found, |chains| - 1);
        forall s: nat | s != key
          ensures Lookup(s) == old(Lookup(s))
        {
          assert Lookup(s) == LookupIn(Relink(chains, owner, found, |chains| - 1), mbs[..], s);
          assert old(Lookup(s)) == LookupIn(chains, mbs[..], s);
        }
      }
    }

    /** inc_nr_dirty_caches, defined outside this file: one more dirty block. */
    method IncNrDirtyCaches()
      modifies this`nrDirtyCaches
      ensures nrDirtyCaches == old(nrDirtyCaches) + 1
    {
      nrDirtyCaches := nrDirtyCaches + 1;
    }

    /**
     * apply_metablock_device: copy entry i of header h into block i of
     * segment k. A dirty entry then invalidates the block the table held for
     * its sector, counts one more dirty block and registers the new block on
     * top of its bucket, so that lookups follow one more registration; a clean
     * entry registers nothing. The block must still be on the null head.
     */
    method ApplyMetablockDevice(k: nat, h: SegmentHeaderDevice, i: nat, ghost log: seq<(nat, u64)>)
      requires StoreValid() && HtValid() && k < nrSegments && i < nrCachesInseg && i < |h.mbarr|
      requires OnNull(chainOf, htsize, segs[k].startIdx + i, segs[k].startIdx + i + 1)
      requires LooksUp(log)
      modifies buckets, this`chainOf, mbs, this`nrDirtyCaches
      ensures StoreValid() && HtValid()
      ensures LooksUp(log + Registration(segs[k].startIdx + i, h.mbarr[i]))
      ensures mbs[..] == old(mbs[..])[segs[k].startIdx + i := RestoredBlock(old(mbs[segs[k].startIdx + i]), h, i)]
      ensures NullKept(old(chainOf), chainOf, htsize, segs[k].startIdx + i, segs[k].startIdx + i + 1)
      ensures nrDirtyCaches == old(nrDirtyCaches) + |Registration(segs[k].startIdx + i, h.mbarr[i])|
    {
      var b := segs[k].startIdx + i;
      var mb := RestoredBlock(mbs[b], h, i);
      ghost var chains, mbs0 := buckets[..], mbs[..];
      WriteUnlinkedBlock(chains, chainOf, mbs0, b, mb);
      mbs[b] := mb;
      forall s: nat
        ensures Lookup(s) == LastWriter(log, s)
      {
        assert Lookup(s) == LookupIn(chains, mbs0[b := mb], s);
        assert old(Lookup(s)) == LookupIn(chains, mbs0, s);
      }
      if mb.dirtyBits == 0 {
        assert log + Registration(b, h.mbarr[i]) == log;
        return;
      }
      assert Registration(b, h.mbarr[i]) == [(b, mb.sector)];
      RegisterDirty(b, mb.sector, log);
    }

    /**
     * The dirty case of apply_metablock_device for block b, which caches
     * `key` and sits on the null head: look the sector up, invalidate what
     * the table held for it, count the block dirty and register it.
     */
    method RegisterDirty(b: nat, key: u64, ghost log: seq<(nat, u64)>)
      requires StoreValid() && HtValid() && b < nrCaches && chainOf[b] == htsize && mbs[b].sector == key
      requires LooksUp(log)
      modifies buckets, this`chainOf, mbs, this`nrDirtyCaches
      ensures StoreValid() && HtValid()
      ensures LooksUp(log + [(b, key)])
      ensures mbs[..] == old(mbs[..])
      ensures NullKept(old(chainOf), chainOf, htsize, b, b + 1)
      ensures nrDirtyCaches == old(nrDirtyCaches) + 1
    {
      var head := HtGetHead(key);
      var found := HtLookup(head, key);
      ghost var o0 := chainOf;
      if found.Some? {
        PartitionBelow(buckets[..], chainOf);
        assert buckets[..][head] == buckets[head];
        FirstHitSpec(buckets[head], mbs[..], key);
        ExactlyOneChain(buckets[..], chainOf, found.value, head);
        InvalidatePreviousCache(found.value, key);
        assert NullKept(o0, chainOf, htsize, b, b + 1);
        forall s: nat | s != key
          ensures Lookup(s) == LastWriter(log, s)
        {
        }
      }
      IncNrDirtyCaches();
      ghost var o1 := chainOf;
      RegisterLast(head, key, b, log);
      NullKeptStep(o0, o1, chainOf, htsize, b, b + 1, b);
    }

    /**
     * apply_segment_header_device: slot k takes the stored length, then
     * entries 0 .. length-1 are applied in order. The length read from the
     * device is trusted: it must be at most nr_caches_inseg. The segment's
     * blocks must still be on the null head (no earlier visit registered them).
     */
    method ApplySegmentHeaderDevice(k: nat, h: SegmentHeaderDevice, ghost log: seq<(nat, u64)>)
      requires StoreValid() && HtValid() && k < nrSegments
      requires |h.mbarr| == nrCachesInseg && h.length as nat <= nrCachesInseg
      requires OnNull(chainOf, htsize, segs[k].startIdx, segs[k].startIdx + nrCachesInseg)
      requires LooksUp(log)
      modifies segs, buckets, this`chainOf, mbs, this`nrDirtyCaches
      ensures StoreValid() && HtValid()
      ensures segs[..] == old(segs[..])[k := old(segs[k]).(length := h.length as nat)]
      ensures mbs[..] == RestoreEntries(old(mbs[..]), segs[k].startIdx, h, h.length as nat)
      ensures LooksUp(log + HeaderLog(segs[k].startIdx, h))
      ensures NullKept(old(chainOf), chainOf, htsize, segs[k].startIdx, segs[k].startIdx + nrCachesInseg)
      ensures nrDirtyCaches == old(nrDirtyCaches) + |HeaderLog(segs[k].startIdx, h)|
    {
      segs[k] := segs[k].(length := h.length as nat);
      ApplyEntries(k, h, log);
    }

    /** The loop of apply_segment_header_device over the header's entries. */
    method ApplyEntries(k: nat, h: SegmentHeaderDevice, ghost log: seq<(nat, u64)>)
      requires StoreValid() && HtValid() && k < nrSegments
      requires |h.mbarr| == nrCachesInseg && h.length as nat <= nrCachesInseg
      requires OnNull(chainOf, htsize, segs[k].startIdx, segs[k].startIdx + nrCachesInseg)
      requires LooksUp(log)
      modifies buckets, this`chainOf, mbs, this`nrDirtyCaches
      ensures EntriesApplied(segs[k].startIdx, h, log, old(mbs[..]), old(chainOf), old(nrDirtyCaches), h.length as nat) == true
    {
      var base := segs[k].startIdx;
      ghost var mbs0, owner0, dirty0 := mbs[..], chainOf, nrDirtyCaches;
      assert RestoreEntries(mbs0, base, h, 0) == mbs0;
      assert log + DirtyLog(base, h.mbarr, 0) == log;
      var i := 0;
      // `== true` keeps the invariant one fact for the solver instead of one per conjunct.
      while i < h.length as nat
        invariant 0 <= i <= h.length as nat
        invariant EntriesApplied(base, h, log, mbs0, owner0, dirty0, i) == true
      {
        ApplyEntry(k, base, h, log, mbs0, owner0, dirty0, i);
        i := i + 1;
      }
    }

    /**
     * The state after the first i entries of header h were applied to segment
     * k: lookups follow log and those entries' registrations, the entries'
     * blocks are restored, the rest of the segment is still on the null head.
     */
    ghost predicate EntriesApplied(base: nat, h: SegmentHeaderDevice, log: seq<(nat, u64)>, mbs0: seq<Metablock>,
                                   owner0: seq<nat>, dirty0: nat, i: nat)
      reads this`segs, this`mbs, this`htsize, this`buckets, this`chainOf, this`nrDirtyCaches, segs, mbs, buckets
    {
      match h
      case SegmentHeaderDevice(_, _, length, mbarr) =>
        base + nrCachesInseg <= nrCaches && |mbarr| == nrCachesInseg && i <= length as nat <= nrCachesInseg &&
        |owner0| == nrCaches && StoreValid() && HtValid() &&
        LooksUp(log + DirtyLog(base, mbarr, i)) &&
        mbs[..] == RestoreEntries(mbs0, base, h, i) &&
        OnNull(chainOf, htsize, base + i, base + nrCachesInseg) &&
        NullKept(owner0, chainOf, htsize, base, base + nrCachesInseg) &&
        nrDirtyCaches == dirty0 + |DirtyLog(base, mbarr, i)|
    }

    /** One iteration of the loop of apply_segment_header_device. */
    method ApplyEntry(k: nat, base: nat, h: SegmentHeaderDevice, ghost log: seq<(nat, u64)>, ghost mbs0: seq<Metablock>,
                      ghost owner0: seq<nat>, ghost dirty0: nat, i: nat)
      requires EntriesApplied(base, h, log, mbs0, owner0, dirty0, i) == true && i < h.length as nat
      requires k < nrSegments && base == segs[k].startIdx
      modifies buckets, this`chainOf, mbs, this`nrDirtyCaches
      ensures EntriesApplied(base, h, log, mbs0, owner0, dirty0, i + 1)
    {
      ghost var owner := chainOf;
      assert OnNull(chainOf, htsize, base + i, base + i + 1);
      ApplyMetablockDevice(k, h, i, log + DirtyLog(base, h.mbarr, i));
      NullKeptStep(owner0, owner, chainOf, htsize, base, base + nrCachesInseg, base + i);
      OnNullStep(owner, chainOf, htsize, base + i, base + nrCachesInseg);
      DirtyLogStep(base, h.mbarr, i);
      assert log + DirtyLog(base, h.mbarr, i + 1) == log + DirtyLog(base, h.mbarr, i) + Registration(base + i, h.mbarr[i]);
      RestoreEntriesStep(mbs0, base, h, i);
    }

    /** The last step of apply_metablock_device: ht_register puts block b on top of the sector's bucket. */
    method RegisterLast(head: nat, key: u64, b: nat, ghost log: seq<(nat, u64)>)
      requires StoreValid() && HtValid() && b < nrCaches && chainOf[b] == htsize && mbs[b].sector == key
      requires head == HtGetHead(key)
      requires forall s: nat :: s != key ==> Lookup(s) == LastWriter(log, s)
      modifies buckets, this`chainOf, mbs
      ensures StoreValid() && HtValid()
      ensures LooksUp(log + [(b, key)])
      ensures mbs[..] == old(mbs[..])
      ensures chainOf == old(chainOf)[b := head]
    {
      ghost var chains, owner, mbs0 := buckets[..], chainOf, mbs[..];
      PartitionBelow(chains, owner);
      forall s: nat | s != key
        ensures LookupIn(chains, mbs0, s) == LastWriter(log, s)
      {
        assert Lookup(s) == LookupIn(chains, mbs0, s);
      }
      RegisterFollowsLog(chains, owner, mbs0, b, key, log);
      HtRegister(head, key, b);
      assert mbs[..] == mbs0;
      forall s: nat
        ensures Lookup(s) == LastWriter(log + [(b, key)], s)
      {
        assert Lookup(s) == LookupIn(Relink(chains, owner, b, head), mbs0, s);
      }
    }

    /**
     * prepare_segment_header_device: write the entries of segment k's first
     * `length` blocks over the front of the buffer's entry area, then the
     * id, then the checksum over the buffer as it is then, then the length.
     * The caller guarantees what the BUG_ON checks: the segment's last
     * block is the one the cursor is at.
     */
    method PrepareSegmentHeaderDevice(buf: RamBuffer, k: nat, crc: Crc)
      requires StoreValid() && k < nrSegments
      requires segs[k].length >= 1 && segs[k].length - 1 == MbIdxInseg(cursor, nrCachesInseg)
      requires buf.mbarr.Length == nrCachesInseg && buf.data.Length == nrCachesInseg
      modifies buf, buf.mbarr
      ensures buf.Image() == Render(crc, old(buf.Image()), DeviceEntries(mbs[..], segs[k].startIdx, segs[k].length),
                                    segs[k].id)
    {
      var length := segs[k].length;
      var start := segs[k].startIdx;
      ghost var area := buf.mbarr[..];
      var i := 0;
      while i < length
        invariant 0 <= i <= length
        invariant forall j :: 0 <= j < i ==> buf.mbarr[j] == MetablockDevice(mbs[start + j].sector, mbs[start + j].dirtyBits)
        invariant forall j :: i <= j < |area| ==> buf.mbarr[j] == area[j]
      {
        buf.mbarr[i] := MetablockDevice(mbs[start + i].sector, mbs[start + i].dirtyBits);
        i := i + 1;
      }
      assert buf.mbarr[..] == DeviceEntries(mbs[..], start, length) + area[length..];
      buf.id := segs[k].id;
      buf.checksum := CalcChecksum(crc, buf.Image(), length);
      buf.length := length;
    }

    /**
     * find_max_id: read every slot in index order and keep the largest id
     * seen. io[k] is the result of reading slot k (0 on success); a failed
     * read ends the scan with that error.
     */
    method FindMaxId(ring: seq<SegmentImage>, io: seq<int>) returns (r: int, maxId: u64)
      requires |ring| == nrSegments && |io| == nrSegments
      ensures r == 0 <==> forall k :: 0 <= k < nrSegments ==> io[k] == 0
      ensures r != 0 ==> exists k :: 0 <= k < nrSegments && io[k] == r && forall j :: 0 <= j < k ==> io[j] == 0
      ensures r == 0 ==> maxId == MaxId(ring)
    {
      maxId := 0;
      var k := 0;
      while k < nrSegments
        invariant 0 <= k <= nrSegments
        invariant forall j :: 0 <= j < k ==> io[j] == 0
        invariant maxId == MaxId(ring[..k])
      {
        if io[k] != 0 {
          return io[k], maxId;
        }
        assert ring[..k + 1][..k] == ring[..k];
        if ring[k].header.id > maxId {
          maxId := ring[k].header.id;
        }
        k := k + 1;
      }
      assert ring[..k] == ring;
      r := 0;
    }

    /**
     * The state after the first t visits of the order w, from blocks mbs0,
     * headers segs0 and dirty count dirty0: blocks, headers, lookups and the
     * dirty count are what replaying those visits gives, maxId is the id of
     * the last slot applied, and the slots still to visit have all their
     * blocks on the null head.
     */
    ghost predicate Replayed(crc: Crc, ring: seq<SegmentImage>, w: seq<nat>, t: nat, mbs0: seq<Metablock>,
                             segs0: seq<SegmentHeader>, dirty0: nat, maxId: u64)
      reads this`segs, this`mbs, this`htsize, this`buckets, this`chainOf, this`nrDirtyCaches, segs, mbs, buckets
    {
      StoreValid() && HtValid() &&
      |ring| == nrSegments && |w| == nrSegments && t <= nrSegments && InRing(w, ring) && Distinct(w) &&
      RingFits(ring, nrCachesInseg) && |mbs0| == nrCaches && |segs0| == nrSegments &&
      LooksUp(ReplayLog(crc, ring, w, t, nrCachesInseg)) &&
      mbs[..] == ReplayedBlocks(crc, ring, w, t, nrCachesInseg, mbs0) &&
      segs[..] == ReplayedSegs(crc, ring, w, t, segs0) &&
      nrDirtyCaches == dirty0 + |ReplayLog(crc, ring, w, t, nrCachesInseg)| &&
      maxId == LastAppliedId(crc, ring, w, t) &&
      forall u :: t <= u < nrSegments ==>
        OnNull(chainOf, htsize, segs[w[u]].startIdx, segs[w[u]].startIdx + nrCachesInseg)
    }

    /**
     * The body of the loop of apply_valid_segments for visit t, position i
     * of the scan: read slot k = i mod nr_segments (io[k] is the result),
     * end with that error when the read failed; otherwise skip the slot
     * when its id is 0 or the stored checksum differs from the one
     * recomputed over its length, and apply it and remember its id when
     * neither.
     */
    method ReplaySlot(crc: Crc, ring: seq<SegmentImage>, io: seq<int>, ghost w: seq<nat>, ghost t: nat,
                      ghost mbs0: seq<Metablock>, ghost segs0: seq<SegmentHeader>, ghost dirty0: nat,
                      maxId: u64, i: nat) returns (err: int, newMax: u64)
      requires Replayed(crc, ring, w, t, mbs0, segs0, dirty0, maxId) == true && t < nrSegments
      requires |io| == nrSegments && w[t] == i % nrSegments
      modifies segs, buckets, this`chainOf, mbs, this`nrDirtyCaches
      ensures err == io[w[t]]
      ensures err != 0 ==> Replayed(crc, ring, w, t, mbs0, segs0, dirty0, newMax) == true
      ensures err == 0 ==> Replayed(crc, ring, w, t + 1, mbs0, segs0, dirty0, newMax) == true
    {
      var k := i % nrSegments;
      if io[k] != 0 {
        return io[k], maxId;
      }
      err := 0;
      var header := ring[k].header;
      if header.id == 0 {
        return 0, maxId;
      }
      var checksum1 := header.checksum;
      var checksum2 := CalcChecksum(crc, ring[k], header.length as nat);
      if checksum1 != checksum2 {
        return 0, maxId;
      }
      ghost var owner := chainOf;
      ApplySegmentHeaderDevice(k, header, ReplayLog(crc, ring, w, t, nrCachesInseg));
      newMax := header.id;
      var n := nrCachesInseg;
      forall u | t + 1 <= u < nrSegments
        ensures OnNull(chainOf, htsize, segs[w[u]].startIdx, segs[w[u]].startIdx + n)
      {
        BlockRangesDisjoint(w[u], k, n);
        OnNullBeside(owner, chainOf, htsize, segs[k].startIdx, segs[k].startIdx + n,
                     segs[w[u]].startIdx, segs[w[u]].startIdx + n);
      }
    }

    /** Before the first visit nothing is replayed: every block is on the null head, so nothing is found. */
    lemma ReplayStarts(crc: Crc, ring: seq<SegmentImage>, maxIdIn: u64)
      requires StoreValid() && HtValid() && |ring| == nrSegments
      requires RingFits(ring, nrCachesInseg)
      requires OnNull(chainOf, htsize, 0, nrCaches)
      ensures Replayed(crc, ring, VisitOrder(maxIdIn, nrSegments), 0, mbs[..], segs[..], nrDirtyCaches, 0)
    {
      WindowVisitsEachSlotOnce(SegmentIdToIdx(Inc64(maxIdIn), nrSegments), nrSegments);
      forall s: nat
        ensures Lookup(s) == LastWriter([], s)
      {
        AllOnNullFindsNothing(buckets[..], chainOf, mbs[..], s);
      }
    }

    /**
     * apply_valid_segments: visit every slot once, starting at the slot of
     * id maxIdIn + 1, and apply each slot whose id is non-zero and whose
     * checksum matches; newMax is the id of the last slot applied, 0 when
     * none. io[k] is the result of reading slot k; a failed read ends the
     * loop with that error, the slots applied so far staying applied. The
     * stored lengths are trusted (RingFits), and every block starts on the
     * null head, as ht_empty_init leaves it.
     */
    method ApplyValidSegments(crc: Crc, ring: seq<SegmentImage>, io: seq<int>, maxIdIn: u64)
      returns (r: int, newMax: u64)
      requires StoreValid() && HtValid() && |ring| == nrSegments && |io| == nrSegments
      requires RingFits(ring, nrCachesInseg)
      requires OnNull(chainOf, htsize, 0, nrCaches)
      modifies segs, buckets, this`chainOf, mbs, this`nrDirtyCaches
      ensures StoreValid() && HtValid()
      ensures var w := VisitOrder(maxIdIn, nrSegments);
              var t := FirstFailure(io, w);
              r == (if t < nrSegments then io[w[t]] else 0) &&
              Replayed(crc, ring, w, t, old(mbs[..]), old(segs[..]), old(nrDirtyCaches), newMax) == true
    {
      var start := SegmentIdToIdx(Inc64(maxIdIn), nrSegments);
      ghost var w := Window(start, nrSegments);
      assert w == VisitOrder(maxIdIn, nrSegments);
      ghost var mbs0, segs0, dirty0 := mbs[..], segs[..], nrDirtyCaches;
      ReplayStarts(crc, ring, maxIdIn);
      newMax := 0;
      var i := start;
      ghost var t := 0;
      while i < start + nrSegments
        invariant i == start + t && t <= nrSegments
        invariant t <= FirstFailure(io, w)
        invariant Replayed(crc, ring, w, t, mbs0, segs0, dirty0, newMax) == true
      {
        var err;
        err, newMax := ReplaySlot(crc, ring, io, w, t, mbs0, segs0, dirty0, newMax, i);
        FirstFailureStep(io, w, t);
        if err != 0 {
          return err, newMax;
        }
        i, t := i + 1, t + 1;
      }
      r := 0;
    }

    /**
     * infer_last_migrated_id: recordIo is the result of reading the
     * superblock record and recordId the last migrated id it holds. On a
     * failed read the error is returned and nothing changes; otherwise the
     * id becomes last_flushed - nr_segments (0 when last_flushed is not
     * larger), raised to the recorded id when that is larger.
     */
    method InferLastMigratedId(recordIo: int, recordId: u64) returns (r: int)
      modifies this`lastMigratedId
      ensures r == recordIo
      ensures r != 0 ==> lastMigratedId == old(lastMigratedId)
      ensures r == 0 ==> lastMigratedId == InferredLastMigrated(lastFlushedId, nrSegments, recordId)
    {
      if recordIo != 0 {
        return recordIo;
      }
      lastMigratedId := if lastFlushedId > nrSegments then lastFlushedId - nrSegments else 0;
      if recordId > lastMigratedId {
        lastMigratedId := recordId;
      }
      r := 0;
    }

    /**
     * replay_log_on_cache: find the largest id (reads io1), replay the ring
     * from the slot after it (reads io2), take the last applied id as the
     * last flushed id and infer the last migrated id; the result of that
     * inference is not checked. Fails with the first failed read of either
     * scan.
     */
    method ReplayLogOnCache(crc: Crc, ring: seq<SegmentImage>, io1: seq<int>, io2: seq<int>,
                            recordIo: int, recordId: u64) returns (r: int)
      requires StoreValid() && HtValid() && |ring| == nrSegments && |io1| == nrSegments && |io2| == nrSegments
      requires RingFits(ring, nrCachesInseg)
      requires OnNull(chainOf, htsize, 0, nrCaches)
      modifies segs, buckets, this`chainOf, mbs, this`nrDirtyCaches, this`lastFlushedId, this`lastMigratedId
      ensures StoreValid() && HtValid()
      ensures r == 0 <==> forall k :: 0 <= k < nrSegments ==> io1[k] == 0 && io2[k] == 0
      ensures r == 0 ==>
                Replayed(crc, ring, VisitOrder(MaxId(ring), nrSegments), nrSegments,
                         old(mbs[..]), old(segs[..]), old(nrDirtyCaches), lastFlushedId) == true
      ensures r == 0 ==>
                lastMigratedId == if recordIo == 0 then InferredLastMigrated(lastFlushedId, nrSegments, recordId)
                                  else old(lastMigratedId)
      ensures r != 0 ==> lastFlushedId == old(lastFlushedId) && lastMigratedId == old(lastMigratedId)
    {
      var maxId;
      r, maxId := FindMaxId(ring, io1);
      if r == 0 {
        var lastId;
        r, lastId := ApplyValidSegments(crc, ring, io2, maxId);
        NoFailureInWindow(io2, SegmentIdToIdx(Inc64(maxId), nrSegments), nrSegments);
        if r == 0 {
          lastFlushedId := lastId;
          var _ := InferLastMigratedId(recordIo, recordId);
        }
      }
    }

    /** select_any_rambuf: RAM buffer 0 of the pool becomes the current one. */
    method SelectAnyRambuf()
      modifies this`currentRambuf
      ensures currentRambuf == 0
    {
      currentRambuf := 0;
    }

    /**
     * acquire_first_seg: the segment after the last flushed one becomes the
     * current segment. Its blocks leave the hash table for the null head, it
     * takes the new id and length 1, the cursor is its first block (so the
     * length and the cursor agree as prepare_segment_header_device checks)
     * and RAM buffer 0 is selected. wait_for_migration, defined outside this
     * file, returns once no migration reads the slot: here that is required.
     */
    method AcquireFirstSeg()
      requires StoreValid() && HtValid()
      requires segs[SegmentIdToIdx(Inc64(lastFlushedId), nrSegments)].nrInflightIos == 0
      modifies segs, buckets, this`chainOf, this`currentSeg, this`cursor, this`currentRambuf
      ensures StoreValid() && HtValid()
      ensures currentSeg == SegmentIdToIdx(Inc64(lastFlushedId), nrSegments) < nrSegments
      ensures segs[..] == old(segs[..])[currentSeg := old(segs[..])[currentSeg].(id := Inc64(lastFlushedId), length := 1)]
      ensures buckets[..] == Discarded(old(buckets[..]), segs[currentSeg].startIdx, nrCachesInseg)
      ensures chainOf == Detached(old(chainOf), segs[currentSeg].startIdx, nrCachesInseg, htsize)
      ensures cursor == segs[currentSeg].startIdx && currentRambuf == 0
      ensures segs[currentSeg].length >= 1 && segs[currentSeg].length - 1 == MbIdxInseg(cursor, nrCachesInseg)
    {
      var initSegmentId := Inc64(lastFlushedId);
      var k := SegmentIdToIdx(initSegmentId, nrSegments);
      DiscardCachesInseg(k);
      segs[k] := segs[k].(id := initSegmentId);
      currentSeg := k;
      cursor := segs[k].startIdx;
      segs[k] := segs[k].(length := 1);
      SelectAnyRambuf();
      DivModUnique(cursor, nrCachesInseg, k, 0);
    }

    /**
     * recover_cache: replay the log (writeback_non_volatile_buffers, a stub
     * returning 0, is left out), then acquire the first segment. No
     * migration may be in flight on any slot, as after
     * init_segment_header_array.
     */
    method RecoverCache(crc: Crc, ring: seq<SegmentImage>, io1: seq<int>, io2: seq<int>,
                        recordIo: int, recordId: u64) returns (r: int)
      requires StoreValid() && HtValid() && |ring| == nrSegments && |io1| == nrSegments && |io2| == nrSegments
      requires RingFits(ring, nrCachesInseg)
      requires OnNull(chainOf, htsize, 0, nrCaches)
      requires forall k :: 0 <= k < nrSegments ==> segs[k].nrInflightIos == 0
      modifies segs, buckets, this`chainOf, mbs, this`nrDirtyCaches, this`lastFlushedId, this`lastMigratedId
      modifies this`currentSeg, this`cursor, this`currentRambuf
      ensures StoreValid() && HtValid()
      ensures r == 0 <==> forall k :: 0 <= k < nrSegments ==> io1[k] == 0 && io2[k] == 0
      ensures r == 0 ==>
                var k := SegmentIdToIdx(Inc64(lastFlushedId), nrSegments);
                lastFlushedId == LastAppliedId(crc, ring, VisitOrder(MaxId(ring), nrSegments), nrSegments) &&
                mbs[..] == ReplayedBlocks(crc, ring, VisitOrder(MaxId(ring), nrSegments), nrSegments, nrCachesInseg,
                                          old(mbs[..])) &&
                currentSeg == k && segs[k].id == Inc64(lastFlushedId) && segs[k].length == 1 &&
                cursor == segs[k].startIdx && currentRambuf == 0 &&
                OnNull(chainOf, htsize, segs[k].startIdx, segs[k].startIdx + nrCachesInseg)
    {
      ghost var segs0 := segs[..];
      r := ReplayLogOnCache(crc, ring, io1, io2, recordIo, recordId);
      if r != 0 {
        return;
      }
      ghost var w := VisitOrder(MaxId(ring), nrSegments);
      ReplayedSegsAt(crc, ring, w, nrSegments, segs0, SegmentIdToIdx(Inc64(lastFlushedId), nrSegments));
      AcquireFirstSeg();
    }
  }

  /**
   * When every lookup but that of `key` follows `log`, registering block b
   * (on the null head, caching `key`) on top of key's bucket makes every
   * lookup follow log + [(b, key)].
   */
  lemma RegisterFollowsLog(chains: seq<seq<nat>>, owner: seq<nat>, mbs: seq<Metablock>, b: nat, key: u64,
                           log: seq<(nat, u64)>)
    requires Partition(chains, owner) && |owner| == |mbs| && 2 <= |chains| && Bounded(chains, |mbs|)
    requires b < |owner| && owner[b] == |chains| - 1 && mbs[b].sector == key
    requires forall s: nat :: s != key ==> LookupIn(chains, mbs, s) == LastWriter(log, s)
    ensures Bounded(Relink(chains, owner, b, key % (|chains| - 1)), |mbs|)
    ensures forall s: nat :: LookupIn(Relink(chains, owner, b, key % (|chains| - 1)), mbs, s)
                             == LastWriter(log + [(b, key)], s)
  {
    RegisterOnTop(chains, owner, mbs, b, key);
    LastWriterSnoc(log, b, key);
  }
}
