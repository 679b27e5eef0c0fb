/**
 * The paged "large array": a logical array of `nrElems` elements of
 * `elemsize` bytes, stored in parts of ALLOC_SIZE (64 KiB) each so that no
 * single allocation has to be large. Element i lives in part i / n at byte
 * offset elemsize * (i mod n), where n = ALLOC_SIZE / elemsize.
 */
module LargeArray {
  import opened Heap

  /** ALLOC_SIZE: the byte size of every part. */
  const AllocSize: nat := 65536
  /** sizeof(struct part): one pointer on a 64-bit kernel. */
  const PartBytes: nat := 8
  /** sizeof(struct large_array): pointer, u64, u32 and padding on a 64-bit kernel. */
  const LargeArrayBytes: nat := 24

  /** nr_elems_in_part: the number of whole elements that fit in one part. */
  function NrElemsInPart(elemsize: nat): (n: nat)
    requires 0 < elemsize <= AllocSize
    ensures 1 <= n
    ensures n * elemsize <= AllocSize < (n + 1) * elemsize
  {
    AllocSize / elemsize
  }

  /** nr_parts: ceil(nrElems / NrElemsInPart(elemsize)). */
  function NrParts(nrElems: nat, elemsize: nat): (p: nat)
    requires 0 < elemsize <= AllocSize
    ensures p * NrElemsInPart(elemsize) >= nrElems
    ensures p > 0 ==> (p - 1) * NrElemsInPart(elemsize) < nrElems
  {
    var n := NrElemsInPart(elemsize);
    (nrElems + n - 1) / n
  }

  /** Where an element is stored: which part, and the byte offset inside it. */
  datatype Location = Location(part: nat, offset: nat)

  /** The address arithmetic of large_array_at. */
  function Locate(elemsize: nat, i: nat): Location
    requires 0 < elemsize <= AllocSize
  {
    var n := NrElemsInPart(elemsize);
    Location(i / n, elemsize * (i % n))
  }

  /** Every in-range index resolves to an allocated part, and its element fits in the part. */
  lemma LocateInRange(elemsize: nat, nrElems: nat, i: nat)
    requires 0 < elemsize <= AllocSize
    requires i < nrElems
    ensures Locate(elemsize, i).part < NrParts(nrElems, elemsize)
    ensures Locate(elemsize, i).offset + elemsize <= AllocSize
  {
    var n := NrElemsInPart(elemsize);
    var p := NrParts(nrElems, elemsize);
    var q, r := i / n, i % n;
    assert i == q * n + r;
    if q >= p {
      assert q * n >= p * n by { MulMonotone(p, q, n); }
      assert false;
    }
    assert (r + 1) * elemsize <= n * elemsize by { MulMonotone(r + 1, n, elemsize); }
  }

  /** Distinct indices never share storage: equal locations mean equal indices. */
  lemma LocateInjective(elemsize: nat, i: nat, j: nat)
    requires 0 < elemsize <= AllocSize
    requires Locate(elemsize, i) == Locate(elemsize, j)
    ensures i == j
  {
    var n := NrElemsInPart(elemsize);
    assert i / n == j / n;
    if i % n < j % n {
      MulMonotone(i % n + 1, j % n, elemsize);
    } else if j % n < i % n {
      MulMonotone(j % n + 1, i % n, elemsize);
    }
    assert i == (i / n) * n + i % n && j == (j / n) * n + j % n;
  }

  lemma MulMonotone(a: nat, b: nat, c: nat)
    requires a <= b
    ensures a * c <= b * c
  {
  }

  /** An allocated large array: the addresses of the struct, of its parts table and of every part. */
  class LargeArray {
    const elemsize: nat
    const nrElems: nat
    /** Address of the struct large_array itself. */
    const self: nat
    /** Address of the `parts` table. */
    const table: nat
    /** part->memory of each part, in order. */
    const parts: seq<nat>

    constructor (elemsize: nat, nrElems: nat, self: nat, table: nat, parts: seq<nat>)
      ensures this.elemsize == elemsize && this.nrElems == nrElems
      ensures this.self == self && this.table == table && this.parts == parts
    {
      this.elemsize := elemsize;
      this.nrElems := nrElems;
      this.self := self;
      this.table := table;
      this.parts := parts;
    }

    /** The blocks this array owns. */
    ghost function Blocks(): set<nat>
    {
      {self, table} + set p | p in parts
    }

    /**
     * large_array_at: the part holding element i and the byte offset inside
     * it (the element's address is that part's memory plus the offset).
     */
    function At(i: nat): (loc: Location)
      requires 0 < elemsize <= AllocSize
      requires i < nrElems
      requires |parts| == NrParts(nrElems, elemsize)
      ensures Locate(elemsize, i).part < |parts|
      ensures loc.part == parts[Locate(elemsize, i).part]
      ensures loc.offset == Locate(elemsize, i).offset
      ensures loc.offset + elemsize <= AllocSize
    {
      LocateInRange(elemsize, nrElems, i);
      var l := Locate(elemsize, i);
      Location(parts[l.part], l.offset)
    }

    /**
     * When the parts are distinct blocks (as large_array_alloc hands them
     * out), distinct elements never share storage.
     */
    lemma AtInjective(i: nat, j: nat)
      requires 0 < elemsize <= AllocSize
      requires i < nrElems && j < nrElems
      requires |parts| == NrParts(nrElems, elemsize)
      requires forall p, q :: 0 <= p < q < |parts| ==> parts[p] != parts[q]
      requires At(i) == At(j)
      ensures i == j
    {
      var li, lj := Locate(elemsize, i), Locate(elemsize, j);
      assert parts[li.part] == parts[lj.part];
      assert li.part == lj.part;
      LocateInjective(elemsize, i, j);
    }
  }

  /** The heap entries of a list of parts: ALLOC_SIZE bytes at each address. */
  ghost function PartsMap(parts: seq<nat>): map<nat, nat>
  {
    map a | a in parts :: AllocSize
  }

  /**
   * The part-allocation loop of large_array_alloc: allocates `nr` parts, or on
   * the first failure frees the parts allocated so far.
   */
  method AllocParts(heap: Allocator, nr: nat) returns (got: seq<nat>, ok: bool)
    requires heap.Valid()
    modifies heap
    ensures heap.Valid()
    ensures !ok ==> heap.live == old(heap.live)
    ensures ok ==>
              |got| == nr && heap.next == old(heap.next) + nr &&
              (forall j :: 0 <= j < nr ==> got[j] == old(heap.next) + j) &&
              heap.live == old(heap.live) + PartsMap(got)
  {
    got := [];
    var i := 0;
    while i < nr
      invariant 0 <= i <= nr && |got| == i
      invariant heap.Valid() && heap.next == old(heap.next) + i
      invariant forall j :: 0 <= j < i ==> got[j] == old(heap.next) + j
      invariant heap.live == old(heap.live) + PartsMap(got)
    {
      var m := heap.Alloc(AllocSize);
      if m == Null {
        FreeParts(heap, got);
        assert heap.live == old(heap.live);
        return got, false;
      }
      got := got + [m.a];
      i := i + 1;
    }
    ok := true;
  }

  /** The rollback loop: frees each listed part, in order. */
  method FreeParts(heap: Allocator, parts: seq<nat>)
    requires heap.Valid()
    modifies heap`live
    ensures heap.Valid()
    ensures heap.live == old(heap.live) - set p | p in parts
  {
    var j := 0;
    while j < |parts|
      invariant 0 <= j <= |parts|
      invariant heap.Valid()
      invariant heap.live == old(heap.live) - set p | p in parts[..j]
    {
      heap.Free(Addr(parts[j]));
      assert parts[..j + 1] == parts[..j] + [parts[j]];
      j := j + 1;
    }
    assert parts[..j] == parts;
  }

  /**
   * large_array_alloc: all or nothing. On success every part is allocated
   * (ALLOC_SIZE bytes each) besides the struct and the parts table; on any
   * failure everything allocated so far has been freed again and NULL is
   * returned.
   */
  method Alloc(heap: Allocator, elemsize: nat, nrElems: nat) returns (arr: LargeArray?)
    requires heap.Valid()
    requires 0 < elemsize <= AllocSize
    modifies heap
    ensures heap.Valid()
    ensures arr == null ==> heap.live == old(heap.live)
    ensures arr != null ==>
              fresh(arr) && arr.elemsize == elemsize && arr.nrElems == nrElems &&
              |arr.parts| == NrParts(nrElems, elemsize) &&
              arr.self == old(heap.next) && arr.table == old(heap.next) + 1 &&
              (forall j :: 0 <= j < |arr.parts| ==> arr.parts[j] == old(heap.next) + 2 + j) &&
              heap.live == old(heap.live)[arr.self := LargeArrayBytes]
                                         [arr.table := PartBytes * |arr.parts|]
                           + PartsMap(arr.parts)
  {
    var p := heap.Alloc(LargeArrayBytes);
    if p == Null {
      return null;
    }
    var nr := NrParts(nrElems, elemsize);
    var t := heap.Alloc(PartBytes * nr);
    if t == Null {
      heap.Free(p);
      assert heap.live == old(heap.live);
      return null;
    }
    var got, ok := AllocParts(heap, nr);
    if !ok {
      heap.Free(t);
      heap.Free(p);
      assert heap.live == old(heap.live);
      return null;
    }
    arr := new LargeArray(elemsize, nrElems, p.a, t.a, got);
  }

  /** large_array_free: releases every part, then the parts table, then the struct. */
  method Free(heap: Allocator, arr: LargeArray)
    requires heap.Valid()
    modifies heap`live
    ensures heap.Valid()
    ensures heap.live == old(heap.live) - arr.Blocks()
  {
    FreeParts(heap, arr.parts);
    heap.Free(Addr(arr.table));
    heap.Free(Addr(arr.self));
  }
}
