/**
 * The buffers the cache owns besides its metadata: the pool of RAM buffers
 * that stage segments before they are flushed (init_rambuf_pool,
 * free_rambuf_pool) and the migration work set sized by the batch count
 * (try_alloc_migration_buffer, free_migration_buffer). Memory is the
 * allocator of module Heap; which allocations fail is nondeterministic.
 */
module Buffers {
  import opened Wrappers
  import opened Heap
  import opened Geometry

  /** SECTOR_SHIFT: a sector is 512 = 2^9 bytes. */
  const SectorShift: nat := 9
  /** sizeof(struct segment_header *) on a 64-bit kernel. */
  const PtrBytes: nat := 8

  /**
   * The number of RAM buffers: rambuf_pool_amount kilobytes (times 1000)
   * divided by the bytes of a segment, truncated to the u32 it is stored in.
   */
  function NrRambufPool(amount: nat, order: nat): u32
  {
    (amount * 1000 / Pow2(order + SectorShift)) % U32Limit
  }

  /**
   * When the quotient fits in 32 bits, the pool holds as many whole
   * segments as the amount covers, and it is empty exactly when the amount
   * is smaller than one segment.
   */
  lemma NrRambufPoolSpec(amount: nat, order: nat)
    requires amount * 1000 < U32Limit * Pow2(order + SectorShift)
    ensures NrRambufPool(amount, order) * Pow2(order + SectorShift) <= amount * 1000
    ensures amount * 1000 < (NrRambufPool(amount, order) + 1) * Pow2(order + SectorShift)
    ensures NrRambufPool(amount, order) == 0 <==> amount * 1000 < Pow2(order + SectorShift)
  {
    var seg := Pow2(order + SectorShift);
    var q := amount * 1000 / seg;
    QuotientBounds(amount * 1000, seg);
    if q >= U32Limit {
      MulLeft(seg, U32Limit, q);
      assert false;
    }
    DivModUnique(q, U32Limit, 0, q);
  }

  /** x / d is the number of whole d's in x, and zero exactly when x < d. */
  lemma QuotientBounds(x: nat, d: nat)
    requires 0 < d
    ensures (x / d) * d <= x < (x / d + 1) * d && d * (x / d) <= x
    ensures x / d == 0 <==> x < d
  {
    var q, rem := x / d, x % d;
    assert x == q * d + rem && rem < d;
    assert (q + 1) * d == q * d + d;
    if q != 0 {
      MulLeft(d, 1, q);
    }
  }

  /** The addresses the non-NULL pointers of `ptrs` hold. */
  ghost function Blocks(ptrs: seq<Ptr>): set<nat>
  {
    set j | 0 <= j < |ptrs| && ptrs[j] != Null :: ptrs[j].a
  }

  /** The block a pointer holds, if any. */
  ghost function Addr0(p: Ptr): set<nat>
  {
    if p == Null then {} else {p.a}
  }

  /**
   * `live` is `base` plus the blocks m .. m+n-1, each of `size` bytes, all
   * above the blocks of `base`.
   */
  ghost predicate Extends(live: map<nat, nat>, base: map<nat, nat>, m: nat, n: nat, size: nat)
  {
    (forall a :: a in base ==> a < m) &&
    (forall a :: a in live <==> a in base || m <= a < m + n) &&
    (forall a :: a in base ==> live[a] == base[a]) &&
    (forall a :: m <= a < m + n ==> live[a] == size)
  }

  /**
   * Freeing old blocks after three new ones were added is adding the new
   * ones after freeing the old.
   */
  lemma FreeThenInstall(live: map<nat, nat>, o1: set<nat>, o2: set<nat>, o3: set<nat>,
                        e: nat, x: nat, b: nat, y: nat, s: nat, z: nat)
    requires e !in o1 + o2 + o3 && b !in o1 + o2 + o3 && s !in o1 + o2 + o3
    ensures live[e := x][b := y][s := z] - o1 - o2 - o3 == (live - o1 - o2 - o3)[e := x][b := y][s := z]
  {
    var l, r := live[e := x][b := y][s := z] - o1 - o2 - o3, (live - o1 - o2 - o3)[e := x][b := y][s := z];
    assert l.Keys == r.Keys;
    assert forall a :: a in l ==> l[a] == r[a];
  }

  /** The buffer fields of struct wb_device, all NULL or zero when the device is created. */
  class Pools {
    const heap: Allocator
    var nrRambufPool: nat
    /** The kmalloc'd array of struct rambuffer ... */
    var rambufPool: Ptr
    /** ... and the data pointer of each of its entries. */
    var rambufData: array<Ptr>
    var emigrates: Ptr
    var migrateBuffer: Ptr
    var dirtinessSnapshot: Ptr
    var nrCurBatchedMigration: nat

    constructor (heap: Allocator)
      ensures this.heap == heap && nrRambufPool == 0 && rambufPool == Null && rambufData.Length == 0
      ensures emigrates == Null && migrateBuffer == Null && dirtinessSnapshot == Null
      ensures nrCurBatchedMigration == 0
    {
      this.heap := heap;
      nrRambufPool := 0;
      rambufPool := Null;
      rambufData := new Ptr[0];
      emigrates := Null;
      migrateBuffer := Null;
      dirtinessSnapshot := Null;
      nrCurBatchedMigration := 0;
    }

    /**
     * The migration work set is owned: each of its three pointers is NULL
     * or a live block, and no two of them share a block.
     */
    ghost predicate Owned()
      reads this, heap
    {
      heap.Valid() &&
      (emigrates != Null ==> emigrates.a in heap.live) &&
      (migrateBuffer != Null ==> migrateBuffer.a in heap.live) &&
      (dirtinessSnapshot != Null ==> dirtinessSnapshot.a in heap.live) &&
      (emigrates != Null && migrateBuffer != Null ==> emigrates != migrateBuffer) &&
      (emigrates != Null && dirtinessSnapshot != Null ==> emigrates != dirtinessSnapshot) &&
      (migrateBuffer != Null && dirtinessSnapshot != Null ==> migrateBuffer != dirtinessSnapshot)
    }

    /**
     * init_rambuf_pool: -EINVAL when the amount buys no buffer; otherwise
     * allocate the array of buffers and then each buffer's segment-sized
     * data. When an allocation fails, everything allocated so far is freed
     * and the result is -ENOMEM; on success the pool holds nr_rambuf_pool
     * distinct fresh data blocks.
     */
    method InitRambufPool(amount: nat, order: nat, rambufferSize: nat) returns (r: int)
      requires heap.Valid()
      modifies this, heap
      ensures heap.Valid()
      ensures r == 0 || r == -EINVAL || r == -ENOMEM
      ensures r == -EINVAL <==> NrRambufPool(amount, order) == 0
      ensures r != 0 ==> heap.live == old(heap.live)
      ensures r == -EINVAL ==> nrRambufPool == old(nrRambufPool) && rambufPool == old(rambufPool)
      ensures r == -ENOMEM ==> nrRambufPool == NrRambufPool(amount, order)
      ensures emigrates == old(emigrates) && migrateBuffer == old(migrateBuffer) &&
              dirtinessSnapshot == old(dirtinessSnapshot) &&
              nrCurBatchedMigration == old(nrCurBatchedMigration)
      ensures r == 0 ==> forall a :: a in old(heap.live) ==> a in heap.live && heap.live[a] == old(heap.live)[a]
      ensures r == 0 ==>
                nrRambufPool == NrRambufPool(amount, order) &&
                rambufPool != Null && rambufPool.a !in old(heap.live) &&
                rambufData.Length == nrRambufPool && fresh(rambufData) &&
                (forall j :: 0 <= j < rambufData.Length ==>
                   rambufData[j] != Null && rambufData[j].a !in old(heap.live) && rambufData[j] != rambufPool) &&
                (forall j, k :: 0 <= j < k < rambufData.Length ==> rambufData[j] != rambufData[k]) &&
                heap.live.Keys == old(heap.live).Keys + {rambufPool.a} + Blocks(rambufData[..]) &&
                heap.live[rambufPool.a] == rambufferSize * nrRambufPool &&
                (forall a :: a in Blocks(rambufData[..]) ==> heap.live[a] == Pow2(order + SectorShift))
    {
      var allocSz := Pow2(order + SectorShift);
      var nr: u32 := (amount * 1000 / allocSz) % U32Limit;
      if nr == 0 {
        return -EINVAL;
      }
      nrRambufPool := nr;
      ghost var live0 := heap.live;
      ghost var m := heap.next;
      rambufPool := heap.Alloc(rambufferSize * nr);
      if rambufPool == Null {
        return -ENOMEM;
      }
      rambufData := new Ptr[nr](_ => Null);
      var ok := AllocRambufData(allocSz);
      if !ok {
        heap.Free(rambufPool);
        assert heap.live == live0;
        return -ENOMEM;
      }
      assert forall a :: a in Blocks(rambufData[..]) <==> m + 1 <= a < m + 1 + nr by {
        forall a | m + 1 <= a < m + 1 + nr
          ensures a in Blocks(rambufData[..])
        {
          assert rambufData[..][a - m - 1] == Addr(a);
        }
      }
      r := 0;
    }

    /**
     * The allocation loop of init_rambuf_pool: give every buffer a data
     * block of allocSz bytes; when one allocation fails, free the data of
     * the buffers before it. The blocks handed out are the allocator's next
     * ones, in order.
     */
    method AllocRambufData(allocSz: nat) returns (ok: bool)
      requires heap.Valid()
      modifies heap, rambufData
      ensures heap.Valid()
      ensures !ok ==> heap.live == old(heap.live)
      ensures ok ==>
                (forall j :: 0 <= j < rambufData.Length ==> rambufData[j] == Addr(old(heap.next) + j)) &&
                Extends(heap.live, old(heap.live), old(heap.next), rambufData.Length, allocSz)
    {
      ghost var live1 := heap.live;
      ghost var m := heap.next;
      var i := 0;
      while i < rambufData.Length
        invariant 0 <= i <= rambufData.Length && heap.Valid()
        invariant heap.next == m + i
        invariant forall j :: 0 <= j < i ==> rambufData[j] == Addr(m + j)
        invariant Extends(heap.live, live1, m, i, allocSz)
      {
        var p := heap.Alloc(allocSz);
        if p == Null {
          FreeFirst(i, live1, m, allocSz);
          return false;
        }
        rambufData[i] := p;
        i := i + 1;
      }
      ok := true;
    }

    /**
     * The rollback loop of init_rambuf_pool: free the data of the first i
     * buffers, which hold the blocks m .. m+i-1.
     */
    method FreeFirst(i: nat, ghost live1: map<nat, nat>, ghost m: nat, ghost allocSz: nat)
      requires heap.Valid() && i <= rambufData.Length
      requires forall j :: 0 <= j < i ==> rambufData[j] == Addr(m + j)
      requires Extends(heap.live, live1, m, i, allocSz)
      modifies heap`live
      ensures heap.Valid() && heap.live == live1
    {
      var j := 0;
      while j < i
        invariant 0 <= j <= i && heap.Valid()
        invariant Extends(heap.live, live1, m + j, i - j, allocSz)
      {
        heap.Free(rambufData[j]);
        j := j + 1;
      }
      assert heap.live.Keys == live1.Keys;
    }

    /** free_rambuf_pool: free every buffer's data, then the array of buffers. */
    method FreeRambufPool()
      requires heap.Valid() && nrRambufPool <= rambufData.Length
      modifies heap`live
      ensures heap.Valid()
      ensures heap.live == old(heap.live) - Blocks(rambufData[..nrRambufPool]) - Addr0(rambufPool)
    {
      var i := 0;
      while i < nrRambufPool
        invariant 0 <= i <= nrRambufPool && heap.Valid()
        invariant heap.live == old(heap.live) - Blocks(rambufData[..i])
      {
        assert Blocks(rambufData[..i + 1]) == Blocks(rambufData[..i]) +
                 (if rambufData[i] == Null then {} else {rambufData[i].a}) by {
          assert rambufData[..i + 1] == rambufData[..i] + [rambufData[i]];
        }
        heap.Free(rambufData[i]);
        i := i + 1;
      }
      heap.Free(rambufPool);
    }

    /**
     * try_alloc_migration_buffer AS WRITTEN. On success the three new
     * buffers replace the old ones, which are freed, and the batch count
     * becomes nr_batch. On failure the result is -ENOMEM, the fields and the
     * batch count keep their values, and the unwinding labels free the
     * INSTALLED buffers rather than the new ones: once the first allocation
     * has succeeded, an installed migration buffer is left pointing at a
     * freed block, and the new emigrates array is never freed.
     */
    method TryAllocMigrationBufferAsWritten(nrBatch: nat, nrCachesInseg: nat) returns (r: int)
      requires Owned()
      modifies this, heap
      ensures heap.Valid()
      ensures r == 0 || r == -ENOMEM
      ensures r == 0 ==> Owned() && nrCurBatchedMigration == nrBatch
      ensures r == 0 ==>
                emigrates == Addr(old(heap.next)) && migrateBuffer == Addr(old(heap.next) + 1) &&
                dirtinessSnapshot == Addr(old(heap.next) + 2) &&
                emigrates.a !in old(heap.live) && migrateBuffer.a !in old(heap.live) &&
                dirtinessSnapshot.a !in old(heap.live) &&
                heap.live == (old(heap.live) - Addr0(old(emigrates))
                                             - Addr0(old(migrateBuffer))
                                             - Addr0(old(dirtinessSnapshot)))
                               [emigrates.a := nrBatch * PtrBytes]
                               [migrateBuffer.a := nrBatch * (nrCachesInseg * 4096)]
                               [dirtinessSnapshot.a := nrBatch * nrCachesInseg]
      ensures r != 0 ==>
                nrCurBatchedMigration == old(nrCurBatchedMigration) &&
                emigrates == old(emigrates) && migrateBuffer == old(migrateBuffer) &&
                dirtinessSnapshot == old(dirtinessSnapshot)
      ensures r != 0 && heap.next != old(heap.next) ==>
                old(heap.next) in heap.live && old(heap.next) !in old(heap.live) &&
                (migrateBuffer != Null ==> migrateBuffer.a !in heap.live)
      ensures r != 0 && heap.next != old(heap.next) && old(migrateBuffer) != Null ==> !Owned()
    {
      var e := heap.Alloc(nrBatch * PtrBytes);
      if e == Null {
        return -ENOMEM;
      }
      var b := heap.Alloc(nrBatch * (nrCachesInseg * 4096));
      if b == Null {
        // bad_alloc_buffer, falling through to bad_alloc_snapshot
        heap.Free(emigrates);
        heap.Free(migrateBuffer);
        return -ENOMEM;
      }
      var s := heap.Alloc(nrBatch * nrCachesInseg);
      if s == Null {
        // bad_alloc_snapshot
        heap.Free(migrateBuffer);
        return -ENOMEM;
      }
      InstallWorkset(e, b, s, nrBatch);
      FreeThenInstall(old(heap.live), Addr0(old(emigrates)), Addr0(old(migrateBuffer)), Addr0(old(dirtinessSnapshot)),
                      e.a, nrBatch * PtrBytes, b.a, nrBatch * (nrCachesInseg * 4096), s.a, nrBatch * nrCachesInseg);
      r := 0;
    }

    /**
     * try_alloc_migration_buffer as the comment above it describes it: on
     * failure the buffers allocated by this call are freed and the
     * installed work set is left as it was.
     */
    method TryAllocMigrationBuffer(nrBatch: nat, nrCachesInseg: nat) returns (r: int)
      requires Owned()
      modifies this, heap
      ensures Owned()
      ensures r == 0 || r == -ENOMEM
      ensures r == 0 ==>
                nrCurBatchedMigration == nrBatch &&
                emigrates != Null && migrateBuffer != Null && dirtinessSnapshot != Null &&
                emigrates.a !in old(heap.live) && migrateBuffer.a !in old(heap.live) &&
                dirtinessSnapshot.a !in old(heap.live) &&
                heap.live == (old(heap.live) - Addr0(old(emigrates))
                                             - Addr0(old(migrateBuffer))
                                             - Addr0(old(dirtinessSnapshot)))
                               [emigrates.a := nrBatch * PtrBytes]
                               [migrateBuffer.a := nrBatch * (nrCachesInseg * 4096)]
                               [dirtinessSnapshot.a := nrBatch * nrCachesInseg]
      ensures r != 0 ==>
                heap.live == old(heap.live) &&
                nrCurBatchedMigration == old(nrCurBatchedMigration) &&
                emigrates == old(emigrates) && migrateBuffer == old(migrateBuffer) &&
                dirtinessSnapshot == old(dirtinessSnapshot)
    {
      var e := heap.Alloc(nrBatch * PtrBytes);
      if e == Null {
        return -ENOMEM;
      }
      var b := heap.Alloc(nrBatch * (nrCachesInseg * 4096));
      if b == Null {
        heap.Free(e);
        assert heap.live == old(heap.live);
        return -ENOMEM;
      }
      var s := heap.Alloc(nrBatch * nrCachesInseg);
      if s == Null {
        heap.Free(b);
        heap.Free(e);
        assert heap.live == old(heap.live);
        return -ENOMEM;
      }
      InstallWorkset(e, b, s, nrBatch);
      FreeThenInstall(old(heap.live), Addr0(old(emigrates)), Addr0(old(migrateBuffer)), Addr0(old(dirtinessSnapshot)),
                      e.a, nrBatch * PtrBytes, b.a, nrBatch * (nrCachesInseg * 4096), s.a, nrBatch * nrCachesInseg);
      r := 0;
    }

    /**
     * The success path of try_alloc_migration_buffer: free the installed
     * buffers (vfree only when the migration buffer is set; kfree of NULL
     * does nothing) and install the three new ones with the new batch count.
     */
    method InstallWorkset(e: Ptr, b: Ptr, s: Ptr, nrBatch: nat)
      requires Owned()
      requires e != Null && b != Null && s != Null && e != b && e != s && b != s
      requires e.a in heap.live && b.a in heap.live && s.a in heap.live
      requires e != emigrates && e != migrateBuffer && e != dirtinessSnapshot
      requires b != emigrates && b != migrateBuffer && b != dirtinessSnapshot
      requires s != emigrates && s != migrateBuffer && s != dirtinessSnapshot
      modifies this, heap`live
      ensures Owned()
      ensures emigrates == e && migrateBuffer == b && dirtinessSnapshot == s && nrCurBatchedMigration == nrBatch
      ensures heap.live == old(heap.live) - Addr0(old(emigrates))
                                          - Addr0(old(migrateBuffer))
                                          - Addr0(old(dirtinessSnapshot))
    {
      heap.Free(emigrates);
      if migrateBuffer != Null {
        heap.Free(migrateBuffer);
      }
      heap.Free(dirtinessSnapshot);
      emigrates := e;
      migrateBuffer := b;
      dirtinessSnapshot := s;
      nrCurBatchedMigration := nrBatch;
    }

    /** free_migration_buffer: free the three buffers of the work set. */
    method FreeMigrationBuffer()
      requires Owned()
      modifies heap`live
      ensures heap.Valid()
      ensures heap.live == old(heap.live) - Addr0(emigrates)
                                          - Addr0(migrateBuffer)
                                          - Addr0(dirtinessSnapshot)
    {
      heap.Free(emigrates);
      heap.Free(migrateBuffer);
      heap.Free(dirtinessSnapshot);
    }
  }
}
