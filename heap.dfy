/**
 * The kernel allocator as the metadata code sees it: kmalloc/vmalloc either
 * hand out a fresh block of the requested size or fail (returning NULL), and
 * kfree/vfree release a block (a NULL argument is a no-op).
 * Whether an allocation succeeds is not under the caller's control, so it is
 * chosen nondeterministically.
 */
module Heap {

  /** A pointer: NULL or the address of an allocated block. */
  datatype Ptr = Null | Addr(a: nat)

  class Allocator {
    /** Live blocks: address -> size in bytes. */
    var live: map<nat, nat>
    /** Next address to hand out; every live address is below it. */
    var next: nat

    ghost predicate Valid()
      reads this
    {
      forall a :: a in live ==> a < next
    }

    constructor ()
      ensures Valid() && live == map[] && next == 0
    {
      live := map[];
      next := 0;
    }

    /** kmalloc/vmalloc: NULL on failure, otherwise a fresh block of `size` bytes. */
    method Alloc(size: nat) returns (p: Ptr)
      requires Valid()
      modifies this
      ensures Valid() && next >= old(next)
      ensures p == Null ==> live == old(live) && next == old(next)
      ensures p != Null ==>
                p.a == old(next) && p.a !in old(live) &&
                live == old(live)[p.a := size] && next == old(next) + 1
    {
      var ok: bool := *;
      if ok {
        p := Addr(next);
        live := live[next := size];
        next := next + 1;
      } else {
        p := Null;
      }
    }

    /** kfree/vfree: releases the block `p` points at; freeing NULL does nothing. */
    method Free(p: Ptr)
      requires Valid()
      modifies this`live
      ensures Valid()
      ensures live == if p == Null then old(live) else old(live) - {p.a}
    {
      if p != Null {
        live := live - {p.a};
      }
    }
  }
}
