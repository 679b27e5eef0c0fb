/**
 * The hash table's chains as values. Bucket h holds a chain of block indices,
 * newest first (hlist_add_head pushes to the front). `owner[b]` is the chain
 * block b is linked on, the knowledge hlist_del gets from the node's own
 * back-link. The table's invariant is Partition: every block sits in exactly
 * one chain, exactly once.
 */
module Chains {
  import opened Wrappers
  import opened Records

  predicate NoDup(s: seq<nat>)
  {
    forall i, j :: 0 <= i < j < |s| ==> s[i] != s[j]
  }

  /** Every block on the chain is below n. */
  predicate Below(chain: seq<nat>, n: nat)
  {
    forall i :: 0 <= i < |chain| ==> chain[i] < n
  }

  /** hlist_del: the chain without block b, the others in their order. */
  function Unlink(chain: seq<nat>, b: nat): seq<nat>
  {
    if chain == [] then []
    else if chain[0] == b then Unlink(chain[1..], b)
    else [chain[0]] + Unlink(chain[1..], b)
  }

  /**
   * Unlinking removes b and keeps every other block; it changes nothing when
   * b is absent, and it keeps a chain free of duplicates and within bounds.
   */
  lemma {:induction false} UnlinkSpec(chain: seq<nat>, b: nat)
    ensures forall x :: x in Unlink(chain, b) <==> x in chain && x != b
    ensures b !in chain ==> Unlink(chain, b) == chain
    ensures NoDup(chain) ==> NoDup(Unlink(chain, b))
    ensures forall n :: Below(chain, n) ==> Below(Unlink(chain, b), n)
  {
    if chain != [] {
      UnlinkSpec(chain[1..], b);
      assert chain == [chain[0]] + chain[1..];
      assert NoDup(chain) ==> chain[0] !in chain[1..] && NoDup(chain[1..]);
      assert forall n :: Below(chain, n) ==> chain[0] < n && Below(chain[1..], n);
    }
  }

  /** Each block is on the chain its owner entry names, and on no other; chains hold no duplicates. */
  ghost predicate Partition(chains: seq<seq<nat>>, owner: seq<nat>)
  {
    (forall h, i :: 0 <= h < |chains| && 0 <= i < |chains[h]| ==>
       chains[h][i] < |owner| && owner[chains[h][i]] == h) &&
    (forall h :: 0 <= h < |chains| ==> NoDup(chains[h])) &&
    (forall b :: 0 <= b < |owner| ==> owner[b] < |chains| && b in chains[owner[b]])
  }

  /** Under Partition, block b is on chain h exactly when h is its owner: one chain, once. */
  lemma ExactlyOneChain(chains: seq<seq<nat>>, owner: seq<nat>, b: nat, h: nat)
    requires Partition(chains, owner)
    requires b < |owner| && h < |chains|
    ensures b in chains[h] <==> owner[b] == h
    ensures forall i, j :: 0 <= i < j < |chains[h]| && chains[h][i] == b ==> chains[h][j] != b
  {
    if b in chains[h] {
      var i :| 0 <= i < |chains[h]| && chains[h][i] == b;
      assert owner[chains[h][i]] == h;
    }
  }

  /** Unlink block b from its chain (owner[b]) and push it on the front of chain h. */
  function Relink(chains: seq<seq<nat>>, owner: seq<nat>, b: nat, h: nat): (r: seq<seq<nat>>)
    requires b < |owner| && owner[b] < |chains| && h < |chains|
  {
    var c := chains[owner[b] := Unlink(chains[owner[b]], b)];
    c[h := [b] + c[h]]
  }

  /**
   * Relinking keeps every block in exactly one chain, moves only b (the new
   * owner map differs at b alone), puts b at the head of chain h, and leaves
   * every chain otherwise as it was, in order.
   */
  lemma {:induction false} RelinkKeepsPartition(chains: seq<seq<nat>>, owner: seq<nat>, b: nat, h: nat)
    requires Partition(chains, owner)
    requires b < |owner| && h < |chains|
    ensures Partition(Relink(chains, owner, b, h), owner[b := h])
    ensures |Relink(chains, owner, b, h)| == |chains|
    ensures forall g :: 0 <= g < |chains| ==>
              Relink(chains, owner, b, h)[g] == (if g == h then [b] else []) + Unlink(chains[g], b)
  {
    var r := Relink(chains, owner, b, h);
    var o := owner[b := h];
    forall g | 0 <= g < |chains|
      ensures r[g] == (if g == h then [b] else []) + Unlink(chains[g], b)
    {
      if g != owner[b] {
        ExactlyOneChain(chains, owner, b, g);
        UnlinkSpec(chains[g], b);
      }
    }
    forall g, i | 0 <= g < |r| && 0 <= i < |r[g]|
      ensures r[g][i] < |o| && o[r[g][i]] == g
    {
      var x := r[g][i];
      UnlinkSpec(chains[g], b);
      if x != b {
        assert x in Unlink(chains[g], b) by {
          if g == h { assert r[g] == [b] + Unlink(chains[g], b); }
        }
        var j :| 0 <= j < |chains[g]| && chains[g][j] == x;
        assert owner[chains[g][j]] == g;
      }
    }
    forall g | 0 <= g < |r|
      ensures NoDup(r[g])
    {
      assert NoDup(chains[g]);
      UnlinkSpec(chains[g], b);
      if g == h {
        ExactlyOneChain(chains, owner, b, g);
      }
    }
    forall x | 0 <= x < |o|
      ensures o[x] < |r| && x in r[o[x]]
    {
      if x != b {
        assert x in chains[owner[x]];
        UnlinkSpec(chains[owner[x]], b);
        assert x in Unlink(chains[owner[x]], b);
      }
    }
  }

  /** mb_hit: the block caches the sector being looked up. */
  predicate MbHit(mb: Metablock, key: nat)
  {
    mb.sector == key
  }

  /** ht_lookup's result: the chain walked from its head up to the first block caching `key`. */
  function FirstHit(chain: seq<nat>, mbs: seq<Metablock>, key: nat): Option<nat>
    requires Below(chain, |mbs|)
  {
    if chain == [] then None
    else if MbHit(mbs[chain[0]], key) then Some(chain[0])
    else FirstHit(chain[1..], mbs, key)
  }

  /**
   * The lookup finds the first block on the chain whose sector is `key`, and
   * finds nothing exactly when no block on the chain has that sector.
   */
  lemma {:induction false} FirstHitSpec(chain: seq<nat>, mbs: seq<Metablock>, key: nat)
    requires Below(chain, |mbs|)
    ensures var r := FirstHit(chain, mbs, key);
            r.Some? ==> r.value in chain && mbs[r.value].sector == key
    ensures var r := FirstHit(chain, mbs, key);
            r.Some? ==> exists i :: 0 <= i < |chain| && chain[i] == r.value &&
                                    forall j :: 0 <= j < i ==> mbs[chain[j]].sector != key
    ensures FirstHit(chain, mbs, key).None? <==> forall x :: x in chain ==> mbs[x].sector != key
  {
    if chain != [] && !MbHit(mbs[chain[0]], key) {
      FirstHitSpec(chain[1..], mbs, key);
      assert forall j :: 1 <= j < |chain| ==> chain[j] == chain[1..][j - 1];
      var r := FirstHit(chain, mbs, key);
      if r.Some? {
        var i :| 0 <= i < |chain[1..]| && chain[1..][i] == r.value &&
                 forall j :: 0 <= j < i ==> mbs[chain[1..][j]].sector != key;
        assert chain[i + 1] == r.value;
      }
    }
  }

  /** Unlinking a block whose sector is not `key` does not change what a lookup of `key` finds. */
  lemma {:induction false} FirstHitUnlinkOther(chain: seq<nat>, mbs: seq<Metablock>, key: nat, x: nat)
    requires Below(chain, |mbs|)
    requires x < |mbs| && mbs[x].sector != key
    ensures Below(Unlink(chain, x), |mbs|) && FirstHit(Unlink(chain, x), mbs, key) == FirstHit(chain, mbs, key)
  {
    UnlinkSpec(chain, x);
    if chain != [] {
      FirstHitUnlinkOther(chain[1..], mbs, key, x);
      if chain[0] != x {
        assert ([chain[0]] + Unlink(chain[1..], x))[1..] == Unlink(chain[1..], x);
      }
    }
  }

  /** A lookup reads only the sectors of the blocks on the chain. */
  lemma {:induction false} FirstHitFrame(chain: seq<nat>, mbs1: seq<Metablock>, mbs2: seq<Metablock>, key: nat)
    requires Below(chain, |mbs1|) && Below(chain, |mbs2|)
    requires forall i :: 0 <= i < |chain| ==> mbs1[chain[i]].sector == mbs2[chain[i]].sector
    ensures FirstHit(chain, mbs1, key) == FirstHit(chain, mbs2, key)
  {
    if chain != [] {
      FirstHitFrame(chain[1..], mbs1, mbs2, key);
    }
  }

  /** Chain s with the blocks lo .. hi-1 unlinked. */
  function Without(s: seq<nat>, lo: nat, hi: nat): (r: seq<nat>)
    ensures forall x :: x in r <==> x in s && !(lo <= x < hi)
  {
    if s == [] then []
    else if lo <= s[0] < hi then Without(s[1..], lo, hi)
    else [s[0]] + Without(s[1..], lo, hi)
  }

  /** Unlinking an empty range of blocks changes nothing. */
  lemma {:induction false} WithoutNothing(s: seq<nat>, lo: nat)
    ensures Without(s, lo, lo) == s
  {
    if s != [] {
      WithoutNothing(s[1..], lo);
      assert s == [s[0]] + s[1..];
    }
  }

  /** Unlinking block hi after blocks lo .. hi-1 unlinks lo .. hi. */
  lemma {:induction false} UnlinkWithout(s: seq<nat>, lo: nat, hi: nat)
    requires lo <= hi
    ensures Unlink(Without(s, lo, hi), hi) == Without(s, lo, hi + 1)
  {
    if s != [] {
      UnlinkWithout(s[1..], lo, hi);
      if !(lo <= s[0] < hi) && s[0] != hi {
        assert ([s[0]] + Without(s[1..], lo, hi))[1..] == Without(s[1..], lo, hi);
      }
    }
  }

  /**
   * The chains after unlinking blocks lo .. lo+i-1 in order, each pushed on
   * the null head (the last chain): the buckets miss those blocks and the
   * null chain starts with lo+i-1, ..., lo, followed by its original blocks
   * outside that range.
   */
  function Discarded(orig: seq<seq<nat>>, lo: nat, i: nat): (r: seq<seq<nat>>)
    requires 1 <= |orig|
    ensures |r| == |orig|
  {
    seq(|orig|, g requires 0 <= g < |orig| =>
      (if g == |orig| - 1 then Descending(lo, lo + i) else []) + Without(orig[g], lo, lo + i))
  }

  /** Unlinking block lo+i and pushing it on the null head takes Discarded one block further. */
  lemma DiscardStep(orig: seq<seq<nat>>, after: seq<seq<nat>>, lo: nat, i: nat)
    requires 1 <= |orig| == |after|
    requires forall g :: 0 <= g < |orig| ==>
               after[g] == (if g == |orig| - 1 then [lo + i] else []) + Unlink(Discarded(orig, lo, i)[g], lo + i)
    ensures after == Discarded(orig, lo, i + 1)
  {
    var H := |orig| - 1;
    var before := Discarded(orig, lo, i);
    forall g | 0 <= g < |orig|
      ensures after[g] == Discarded(orig, lo, i + 1)[g]
    {
      if g < H {
        assert before[g] == Without(orig[g], lo, lo + i);
        UnlinkWithout(orig[g], lo, lo + i);
      } else {
        assert before[g] == Descending(lo, lo + i) + Without(orig[H], lo, lo + i);
        NullHeadStep(orig[H], lo, i);
      }
    }
  }

  /** The back-links after blocks lo .. lo+i-1 were moved to the null head. */
  function Detached(owner: seq<nat>, lo: nat, i: nat, nullHead: nat): (r: seq<nat>)
    ensures |r| == |owner|
    ensures forall x :: 0 <= x < |owner| ==> r[x] == if lo <= x < lo + i then nullHead else owner[x]
  {
    seq(|owner|, x requires 0 <= x < |owner| => if lo <= x < lo + i then nullHead else owner[x])
  }

  /** Discarding no block leaves the chains as they are. */
  lemma DiscardedNothing(orig: seq<seq<nat>>, lo: nat)
    requires 1 <= |orig|
    ensures Discarded(orig, lo, 0) == orig
  {
    forall g | 0 <= g < |orig|
      ensures Discarded(orig, lo, 0)[g] == orig[g]
    {
      WithoutNothing(orig[g], lo);
    }
  }

  lemma NullHeadStep(s: seq<nat>, lo: nat, i: nat)
    ensures [lo + i] + Unlink(Descending(lo, lo + i) + Without(s, lo, lo + i), lo + i)
            == Descending(lo, lo + i + 1) + Without(s, lo, lo + i + 1)
  {
    UnlinkAfterDiscarded(s, lo, i);
    assert Descending(lo, lo + i + 1) == [lo + i] + Descending(lo, lo + i);
  }

  lemma UnlinkAfterDiscarded(s: seq<nat>, lo: nat, i: nat)
    ensures Unlink(Descending(lo, lo + i) + Without(s, lo, lo + i), lo + i)
            == Descending(lo, lo + i) + Without(s, lo, lo + i + 1)
  {
    UnlinkAppend(Descending(lo, lo + i), Without(s, lo, lo + i), lo + i);
    UnlinkWithout(s, lo, lo + i);
    UnlinkAbsent(Descending(lo, lo + i), lo + i);
  }

  lemma UnlinkAbsent(s: seq<nat>, b: nat)
    requires forall j :: 0 <= j < |s| ==> s[j] != b
    ensures Unlink(s, b) == s
  {
    assert b !in s;
  }

  /** Unlink distributes over concatenation. */
  lemma {:induction false} UnlinkAppend(a: seq<nat>, b: seq<nat>, x: nat)
    ensures Unlink(a + b, x) == Unlink(a, x) + Unlink(b, x)
  {
    if a != [] {
      UnlinkAppend(a[1..], b, x);
      assert (a + b)[1..] == a[1..] + b;
    } else {
      assert a + b == b;
    }
  }

  /** The blocks hi-1, hi-2, ..., lo: the order repeated pushes of lo .. hi-1 leave them in. */
  function Descending(lo: nat, hi: nat): (r: seq<nat>)
    decreases hi
    ensures |r| == if lo <= hi then hi - lo else 0
    ensures forall x :: x in r <==> lo <= x < hi
    ensures forall i :: 0 <= i < |r| ==> r[i] == hi - 1 - i
  {
    if hi <= lo then [] else [hi - 1] + Descending(lo, hi - 1)
  }

  /** Blocks lo .. hi-1 all sit on the chain nullHead. */
  predicate OnNull(owner: seq<nat>, nullHead: nat, lo: nat, hi: nat)
  {
    forall x :: lo <= x < hi && x < |owner| ==> owner[x] == nullHead
  }

  /** Every block outside lo .. hi-1 that sat on nullHead under `before` still does under `after`. */
  predicate NullKept(before: seq<nat>, after: seq<nat>, nullHead: nat, lo: nat, hi: nat)
  {
    forall x :: 0 <= x < |before| && x < |after| && !(lo <= x < hi) && before[x] == nullHead ==>
      after[x] == nullHead
  }

  /** Keeping the null head outside a range and then outside one block of it keeps it outside the range. */
  lemma NullKeptStep(o0: seq<nat>, o1: seq<nat>, o2: seq<nat>, nullHead: nat, lo: nat, hi: nat, b: nat)
    requires |o0| == |o1| == |o2| && lo <= b < hi
    requires NullKept(o0, o1, nullHead, lo, hi) && NullKept(o1, o2, nullHead, b, b + 1)
    ensures NullKept(o0, o2, nullHead, lo, hi)
  {
  }

  /** After a step that touched block b only, blocks b+1 .. hi-1 are still on the null head. */
  lemma OnNullStep(o1: seq<nat>, o2: seq<nat>, nullHead: nat, b: nat, hi: nat)
    requires |o1| == |o2| && OnNull(o1, nullHead, b, hi) && NullKept(o1, o2, nullHead, b, b + 1)
    ensures OnNull(o2, nullHead, b + 1, hi)
  {
  }

  /** A step that kept the null head outside lo .. hi-1 leaves a range beside it on the null head. */
  lemma OnNullBeside(o1: seq<nat>, o2: seq<nat>, nullHead: nat, lo: nat, hi: nat, lo2: nat, hi2: nat)
    requires |o1| == |o2| && OnNull(o1, nullHead, lo2, hi2) && NullKept(o1, o2, nullHead, lo, hi)
    requires hi <= lo2 || hi2 <= lo
    ensures OnNull(o2, nullHead, lo2, hi2)
  {
  }

  /** Every chain holds only block indices below n. */
  predicate Bounded(chains: seq<seq<nat>>, n: nat)
  {
    forall g :: 0 <= g < |chains| ==> Below(chains[g], n)
  }

  /** Under Partition every chain holds only block indices below the number of blocks. */
  lemma PartitionBelow(chains: seq<seq<nat>>, owner: seq<nat>)
    requires Partition(chains, owner)
    ensures Bounded(chains, |owner|)
  {
  }

  /**
   * What a lookup of sector s finds in a table whose last chain is the null
   * head and whose other |chains| - 1 chains are the buckets: the first hit
   * in bucket s mod (|chains| - 1).
   */
  ghost function LookupIn(chains: seq<seq<nat>>, mbs: seq<Metablock>, s: nat): Option<nat>
    requires 2 <= |chains|
    requires Bounded(chains, |mbs|)
  {
    FirstHit(chains[s % (|chains| - 1)], mbs, s)
  }

  /** Rewriting a block that sits on the null head changes no lookup. */
  lemma WriteUnlinkedBlock(chains: seq<seq<nat>>, owner: seq<nat>, mbs: seq<Metablock>, b: nat, mb: Metablock)
    requires Partition(chains, owner) && |owner| == |mbs| && 2 <= |chains|
    requires b < |owner| && owner[b] == |chains| - 1
    ensures Bounded(chains, |mbs|)
    ensures forall s: nat :: LookupIn(chains, mbs[b := mb], s) == LookupIn(chains, mbs, s)
  {
    PartitionBelow(chains, owner);
    forall s: nat
      ensures LookupIn(chains, mbs[b := mb], s) == LookupIn(chains, mbs, s)
    {
      var g := s % (|chains| - 1);
      ExactlyOneChain(chains, owner, b, g);
      FirstHitFrame(chains[g], mbs[b := mb], mbs, s);
    }
  }

  /**
   * Moving a block that caches `key` from its bucket to the null head
   * changes no lookup of another sector.
   */
  lemma UnlinkKeepsOtherLookups(chains: seq<seq<nat>>, owner: seq<nat>, mbs: seq<Metablock>, f: nat, key: nat)
    requires Partition(chains, owner) && |owner| == |mbs| && 2 <= |chains|
    requires f < |owner| && owner[f] < |chains| - 1 && mbs[f].sector == key
    ensures Partition(Relink(chains, owner, f, |chains| - 1), owner[f := |chains| - 1])
    ensures |Relink(chains, owner, f, |chains| - 1)| == |chains|
    ensures Bounded(chains, |mbs|)
    ensures Bounded(Relink(chains, owner, f, |chains| - 1), |mbs|)
    ensures forall s: nat :: s != key ==>
              LookupIn(Relink(chains, owner, f, |chains| - 1), mbs, s) == LookupIn(chains, mbs, s)
  {
    var r := Relink(chains, owner, f, |chains| - 1);
    RelinkKeepsPartition(chains, owner, f, |chains| - 1);
    PartitionBelow(chains, owner);
    PartitionBelow(r, owner[f := |chains| - 1]);
    assert |r| == |chains|;
    assert Bounded(r, |mbs|);
    UnlinkLookups(chains, r, mbs, f, key);
  }

  lemma UnlinkLookups(chains: seq<seq<nat>>, r: seq<seq<nat>>, mbs: seq<Metablock>, f: nat, key: nat)
    requires 2 <= |chains| == |r| && Bounded(chains, |mbs|) && Bounded(r, |mbs|)
    requires f < |mbs| && mbs[f].sector == key
    requires forall g :: 0 <= g < |chains| ==>
               r[g] == (if g == |chains| - 1 then [f] else []) + Unlink(chains[g], f)
    ensures forall s: nat :: s != key ==> LookupIn(r, mbs, s) == LookupIn(chains, mbs, s)
  {
    forall s: nat | s != key
      ensures LookupIn(r, mbs, s) == LookupIn(chains, mbs, s)
    {
      UnlinkLookupStep(chains, r, mbs, f, s);
    }
  }

  lemma UnlinkLookupStep(chains: seq<seq<nat>>, r: seq<seq<nat>>, mbs: seq<Metablock>, f: nat, s: nat)
    requires 2 <= |chains| == |r| && Bounded(chains, |mbs|) && Bounded(r, |mbs|)
    requires f < |mbs| && mbs[f].sector != s
    requires forall g :: 0 <= g < |chains| ==>
               r[g] == (if g == |chains| - 1 then [f] else []) + Unlink(chains[g], f)
    ensures LookupIn(r, mbs, s) == LookupIn(chains, mbs, s)
  {
    var g := s % (|chains| - 1);
    assert 0 <= g < |chains| - 1;
    assert r[g] == Unlink(chains[g], f);
    assert Below(chains[g], |mbs|);
    FirstHitUnlinkOther(chains[g], mbs, s, f);
    assert LookupIn(r, mbs, s) == FirstHit(r[g], mbs, s);
  }

  /**
   * Registering a block that sat on the null head, and now caches `key`, on
   * the front of bucket key mod (|chains| - 1): a lookup of `key` finds it,
   * and every other lookup finds what it found before.
   */
  lemma RegisterOnTop(chains: seq<seq<nat>>, owner: seq<nat>, mbs: seq<Metablock>, b: nat, key: nat)
    requires Partition(chains, owner) && |owner| == |mbs| && 2 <= |chains|
    requires b < |owner| && owner[b] == |chains| - 1 && mbs[b].sector == key
    ensures Partition(Relink(chains, owner, b, key % (|chains| - 1)), owner[b := key % (|chains| - 1)])
    ensures |Relink(chains, owner, b, key % (|chains| - 1))| == |chains|
    ensures Bounded(chains, |mbs|)
    ensures Bounded(Relink(chains, owner, b, key % (|chains| - 1)), |mbs|)
    ensures forall s: nat :: LookupIn(Relink(chains, owner, b, key % (|chains| - 1)), mbs, s)
                             == if s == key then Some(b) else LookupIn(chains, mbs, s)
  {
    var h := key % (|chains| - 1);
    var r := Relink(chains, owner, b, h);
    RelinkKeepsPartition(chains, owner, b, h);
    PartitionBelow(chains, owner);
    PartitionBelow(r, owner[b := h]);
    forall s: nat
      ensures LookupIn(r, mbs, s) == if s == key then Some(b) else LookupIn(chains, mbs, s)
    {
      var g := s % (|chains| - 1);
      ExactlyOneChain(chains, owner, b, g);
      UnlinkSpec(chains[g], b);
      assert Unlink(chains[g], b) == chains[g];
      if g == h {
        assert r[g] == [b] + chains[g];
        assert r[g][1..] == chains[g];
      } else {
        assert r[g] == chains[g];
      }
    }
  }

  /**
   * With every block on the null head (the last chain), every bucket is
   * empty, so no lookup finds anything: the table ht_empty_init leaves.
   */
  lemma AllOnNullFindsNothing(chains: seq<seq<nat>>, owner: seq<nat>, mbs: seq<Metablock>, s: nat)
    requires Partition(chains, owner) && 2 <= |chains| && |owner| == |mbs|
    requires OnNull(owner, |chains| - 1, 0, |owner|)
    ensures Bounded(chains, |mbs|) && LookupIn(chains, mbs, s) == None
  {
    var g := s % (|chains| - 1);
    FirstHitSpec(chains[g], mbs, s);
  }
}
