/**
 * What crash-recovery replay computes, stated over a ring of segment images
 * read back from the cache device (slot k holds segment k). Replay finds the
 * largest id, then visits every slot once starting after it, skips slots
 * with id 0 or a checksum mismatch and applies the others in visit order.
 */
module Replay {
  import opened Wrappers
  import opened Geometry
  import opened Records
  import opened Codec

  /**
   * A slot image whose length field is at most nr_caches_inseg, with an entry
   * area and data blocks for a whole segment. Replay relies on this without
   * checking it: the length read from the device is used as it is.
   */
  predicate WellSized(img: SegmentImage, n: nat)
  {
    img.header.length as nat <= n && |img.header.mbarr| == n && |img.data| == n
  }

  predicate RingFits(ring: seq<SegmentImage>, n: nat)
  {
    forall k :: 0 <= k < |ring| ==> WellSized(ring[k], n)
  }

  /** find_max_id: the largest header id in the ring, 0 when every id is 0. */
  function MaxId(ring: seq<SegmentImage>): (m: u64)
    ensures forall k :: 0 <= k < |ring| ==> ring[k].header.id <= m
    ensures m == 0 || exists k :: 0 <= k < |ring| && ring[k].header.id == m
  {
    if ring == [] then 0
    else
      var front := ring[..|ring| - 1];
      var m := MaxId(front);
      assert forall k :: 0 <= k < |front| ==> front[k] == ring[k];
      var last := ring[|ring| - 1].header.id;
      if last > m then last else m
  }

  /** The slots apply_valid_segments visits, in visit order: start, start + 1, ... modulo n. */
  function Window(start: nat, n: nat): (w: seq<nat>)
    requires 1 <= n
    ensures |w| == n
    ensures forall t :: 0 <= t < n ==> w[t] < n
  {
    seq(n, t requires 0 <= t < n => (start + t) % n)
  }

  /** Two numbers with the same remainder that lie less than n apart are equal. */
  lemma SameResidueClose(x: nat, y: nat, n: nat)
    requires 1 <= n && x < y + n && y < x + n && x % n == y % n
    ensures x == y
  {
    if x <= y {
      SameResidueOrdered(x, y, n);
    } else {
      SameResidueOrdered(y, x, n);
    }
  }

  lemma SameResidueOrdered(x: nat, y: nat, n: nat)
    requires 1 <= n && x <= y < x + n && x % n == y % n
    ensures x == y
  {
    var q, r, d := x / n, x % n, y - x;
    if r + d < n {
      DivModUnique(y, n, q, r + d);
    } else {
      assert (q + 1) * n == q * n + n;
      DivModUnique(y, n, q + 1, r + d - n);
    }
  }

  /** Adding whole multiples of n does not change the remainder. */
  lemma {:induction false} ModShift(x: nat, q: nat, n: nat)
    requires 1 <= n
    ensures (q * n + x) % n == x % n
  {
    if q > 0 {
      ModShift(x, q - 1, n);
      var y := (q - 1) * n + x;
      assert q * n + x == y + n;
      assert (y / n + 1) * n == (y / n) * n + n;
      DivModUnique(y + n, n, y / n + 1, y % n);
    }
  }

  /** Adding to a remainder and reducing again is reducing the sum. */
  lemma ModAddLeft(a: nat, t: nat, n: nat)
    requires 1 <= n
    ensures (a % n + t) % n == (a + t) % n
  {
    assert a + t == (a / n) * n + (a % n + t);
    ModShift(a % n + t, a / n, n);
  }

  /** The window visits every slot exactly once. */
  lemma WindowVisitsEachSlotOnce(start: nat, n: nat)
    requires 1 <= n
    ensures forall k :: 0 <= k < n ==> k in Window(start, n)
    ensures forall t1, t2 :: 0 <= t1 < t2 < n ==> Window(start, n)[t1] != Window(start, n)[t2]
  {
    var w := Window(start, n);
    var q, r0 := start / n, start % n;
    forall k | 0 <= k < n
      ensures k in w
    {
      var t := if r0 <= k then k - r0 else k + n - r0;
      if r0 <= k {
        DivModUnique(start + t, n, q, k);
      } else {
        DivModUnique(start + t, n, q + 1, k);
      }
      assert w[t] == k;
    }
    forall t1, t2 | 0 <= t1 < t2 < n
      ensures w[t1] != w[t2]
    {
      if w[t1] == w[t2] {
        SameResidueClose(start + t1, start + t2, n);
      }
    }
  }

  /**
   * The number of visits of the order w made before the first failed read,
   * |w| when no read fails; io[k] is the result of reading slot k (0 on
   * success).
   */
  function FirstFailure(io: seq<int>, w: seq<nat>): (t: nat)
    requires forall u :: 0 <= u < |w| ==> w[u] < |io|
    ensures t <= |w|
    ensures forall u :: 0 <= u < t ==> io[w[u]] == 0
    ensures t < |w| ==> io[w[t]] != 0
  {
    if w == [] then 0
    else if io[w[0]] != 0 then 0
    else 1 + FirstFailure(io, w[1..])
  }

  /**
   * One visit of the scan: when the first failure is not before visit t,
   * it is visit t if that read failed and comes later if it succeeded.
   */
  lemma FirstFailureStep(io: seq<int>, w: seq<nat>, t: nat)
    requires forall u :: 0 <= u < |w| ==> w[u] < |io|
    requires t < |w| && t <= FirstFailure(io, w)
    ensures io[w[t]] == 0 ==> t + 1 <= FirstFailure(io, w)
    ensures io[w[t]] != 0 ==> FirstFailure(io, w) == t
  {
  }

  /** A window over every slot meets no failed read exactly when no read fails. */
  lemma NoFailureInWindow(io: seq<int>, start: nat, n: nat)
    requires 1 <= n && |io| == n
    ensures FirstFailure(io, Window(start, n)) == n <==> forall k :: 0 <= k < n ==> io[k] == 0
  {
    var w := Window(start, n);
    WindowVisitsEachSlotOnce(start, n);
    if FirstFailure(io, w) == n {
      forall k | 0 <= k < n
        ensures io[k] == 0
      {
        assert k in w;
        var t :| 0 <= t < n && w[t] == k;
      }
    }
  }

  /** A slot apply_valid_segments applies: a non-zero id and a matching checksum. */
  predicate Applies(crc: Crc, img: SegmentImage)
  {
    img.header.id != 0 && ChecksumOk(crc, img)
  }

  predicate InRing(w: seq<nat>, ring: seq<SegmentImage>)
  {
    forall t :: 0 <= t < |w| ==> w[t] < |ring|
  }

  /**
   * The id apply_valid_segments leaves in *max_id after the first m visits of
   * the order w: that of the last slot it applied, or 0 when it applied none.
   */
  function LastAppliedId(crc: Crc, ring: seq<SegmentImage>, w: seq<nat>, m: nat): u64
    requires m <= |w| && InRing(w, ring)
  {
    if m == 0 then 0
    else if Applies(crc, ring[w[m - 1]]) then ring[w[m - 1]].header.id
    else LastAppliedId(crc, ring, w, m - 1)
  }

  /**
   * The id left is 0 exactly when none of the first m visits applied a slot
   * (an applied slot has a non-zero id), and otherwise it is the id of an
   * applied slot after which no visit applied one.
   */
  lemma {:induction false} LastAppliedIdSpec(crc: Crc, ring: seq<SegmentImage>, w: seq<nat>, m: nat)
    requires m <= |w| && InRing(w, ring)
    ensures var id := LastAppliedId(crc, ring, w, m);
            id == 0 <==> forall t :: 0 <= t < m ==> !Applies(crc, ring[w[t]])
    ensures var id := LastAppliedId(crc, ring, w, m);
            id != 0 ==>
              exists t :: 0 <= t < m && Applies(crc, ring[w[t]]) && ring[w[t]].header.id == id &&
                          forall u :: t < u < m ==> !Applies(crc, ring[w[u]])
  {
    if m > 0 && !Applies(crc, ring[w[m - 1]]) {
      LastAppliedIdSpec(crc, ring, w, m - 1);
    }
  }

  /** The header entries prepare_segment_header_device writes for blocks start .. start+length-1. */
  function DeviceEntries(blocks: seq<Metablock>, start: nat, length: nat): seq<MetablockDevice>
    requires start + length <= |blocks|
  {
    seq(length, i requires 0 <= i < length => MetablockDevice(blocks[start + i].sector, blocks[start + i].dirtyBits))
  }

  /** A block's in-core record after its header entry i has been applied. */
  function RestoredBlock(mb: Metablock, h: SegmentHeaderDevice, i: nat): (r: Metablock)
    requires i < |h.mbarr|
    ensures r.idx == mb.idx
    ensures MetablockDevice(r.sector, r.dirtyBits) == h.mbarr[i]
  {
    mb.(sector := h.mbarr[i].sector, dirtyBits := h.mbarr[i].dirtyBits)
  }

  /**
   * The registrations applying the first m entries makes, in order:
   * (block, sector) for each dirty entry, block base + i for entry i. Clean
   * entries register nothing.
   */
  function DirtyLog(base: nat, entries: seq<MetablockDevice>, m: nat): seq<(nat, u64)>
    requires m <= |entries|
  {
    if m == 0 then []
    else
      var e := entries[m - 1];
      DirtyLog(base, entries, m - 1) + (if e.dirtyBits != 0 then [(base + m - 1, e.sector)] else [])
  }

  /**
   * The log holds at most one registration per entry: every registration
   * comes from a dirty entry among the first m, and every such entry makes one.
   */
  lemma {:induction false} DirtyLogSpec(base: nat, entries: seq<MetablockDevice>, m: nat)
    requires m <= |entries|
    ensures |DirtyLog(base, entries, m)| <= m
    ensures var log := DirtyLog(base, entries, m);
            forall j :: 0 <= j < |log| ==>
              exists i :: 0 <= i < m && entries[i].dirtyBits != 0 && log[j] == (base + i, entries[i].sector)
    ensures forall i :: 0 <= i < m && entries[i].dirtyBits != 0 ==> (base + i, entries[i].sector) in DirtyLog(base, entries, m)
  {
    if m > 0 {
      DirtyLogSpec(base, entries, m - 1);
      var log := DirtyLog(base, entries, m);
      var prev := DirtyLog(base, entries, m - 1);
      forall j | 0 <= j < |log|
        ensures exists i :: 0 <= i < m && entries[i].dirtyBits != 0 && log[j] == (base + i, entries[i].sector)
      {
        if j < |prev| {
          assert log[j] == prev[j];
        } else {
          assert log[j] == (base + m - 1, entries[m - 1].sector);
        }
      }
    }
  }

  /** The registration applying entry e to block b makes: one when the entry is dirty, none when clean. */
  function Registration(b: nat, e: MetablockDevice): (log: seq<(nat, u64)>)
    ensures |log| <= 1
    ensures log == [] <==> e.dirtyBits == 0
    ensures log != [] ==> log[0] == (b, e.sector)
  {
    if e.dirtyBits != 0 then [(b, e.sector)] else []
  }

  /** Applying one more entry appends that entry's registration. */
  lemma DirtyLogStep(base: nat, entries: seq<MetablockDevice>, m: nat)
    requires m < |entries|
    ensures DirtyLog(base, entries, m + 1) == DirtyLog(base, entries, m) + Registration(base + m, entries[m])
  {
  }

  /** The registrations applying a whole header makes. */
  function HeaderLog(base: nat, h: SegmentHeaderDevice): seq<(nat, u64)>
    requires h.length as nat <= |h.mbarr|
  {
    DirtyLog(base, h.mbarr, h.length as nat)
  }

  /** The registrations replay makes in the first m visits of the order w, in order. */
  function ReplayLog(crc: Crc, ring: seq<SegmentImage>, w: seq<nat>, m: nat, n: nat): seq<(nat, u64)>
    requires m <= |w| && InRing(w, ring) && RingFits(ring, n)
  {
    if m == 0 then []
    else
      var k := w[m - 1];
      var prev := ReplayLog(crc, ring, w, m - 1, n);
      if Applies(crc, ring[k]) then prev + HeaderLog(k * n, ring[k].header) else prev
  }

  /** Registration e is the one entry i of slot k makes when replay applies slot k. */
  predicate RegisteredBy(crc: Crc, ring: seq<SegmentImage>, k: nat, n: nat, i: nat, e: (nat, u64))
  {
    k < |ring| && Applies(crc, ring[k]) && i < ring[k].header.length as nat && i < |ring[k].header.mbarr| &&
    ring[k].header.mbarr[i].dirtyBits != 0 && e == (k * n + i, ring[k].header.mbarr[i].sector)
  }

  /** Registration e comes from one of the first m visits of w. */
  ghost predicate FromVisits(crc: Crc, ring: seq<SegmentImage>, w: seq<nat>, m: nat, n: nat, e: (nat, u64))
    requires m <= |w|
  {
    exists t, i :: 0 <= t < m && RegisteredBy(crc, ring, w[t], n, i, e)
  }

  /**
   * Every registration replay makes comes from a dirty entry among the first
   * `length` entries of a slot it applied: entry i of slot k registers
   * block k * n + i under the entry's sector.
   */
  lemma {:induction false} ReplayLogSources(crc: Crc, ring: seq<SegmentImage>, w: seq<nat>, m: nat, n: nat)
    requires m <= |w| && InRing(w, ring) && RingFits(ring, n)
    ensures forall j :: 0 <= j < |ReplayLog(crc, ring, w, m, n)| ==>
              FromVisits(crc, ring, w, m, n, ReplayLog(crc, ring, w, m, n)[j])
  {
    if m > 0 {
      ReplayLogSources(crc, ring, w, m - 1, n);
      var log := ReplayLog(crc, ring, w, m, n);
      var prev := ReplayLog(crc, ring, w, m - 1, n);
      forall j | 0 <= j < |log|
        ensures FromVisits(crc, ring, w, m, n, log[j])
      {
        if j < |prev| {
          assert log[j] == prev[j];
          FromFewerVisits(crc, ring, w, m, n, prev[j]);
        } else {
          FromLastVisit(crc, ring, w, m, n, j - |prev|);
          assert log[j] == HeaderLog(w[m - 1] * n, ring[w[m - 1]].header)[j - |prev|];
        }
      }
    }
  }

  lemma FromFewerVisits(crc: Crc, ring: seq<SegmentImage>, w: seq<nat>, m: nat, n: nat, e: (nat, u64))
    requires 1 <= m <= |w| && FromVisits(crc, ring, w, m - 1, n, e)
    ensures FromVisits(crc, ring, w, m, n, e)
  {
    var t, i :| 0 <= t < m - 1 && RegisteredBy(crc, ring, w[t], n, i, e);
    assert 0 <= t < m;
  }

  lemma FromLastVisit(crc: Crc, ring: seq<SegmentImage>, w: seq<nat>, m: nat, n: nat, j: nat)
    requires 1 <= m <= |w| && InRing(w, ring) && RingFits(ring, n)
    requires Applies(crc, ring[w[m - 1]])
    requires j < |HeaderLog(w[m - 1] * n, ring[w[m - 1]].header)|
    ensures FromVisits(crc, ring, w, m, n, HeaderLog(w[m - 1] * n, ring[w[m - 1]].header)[j])
  {
    var k := w[m - 1];
    var more := HeaderLog(k * n, ring[k].header);
    DirtyLogSpec(k * n, ring[k].header.mbarr, ring[k].header.length as nat);
    var i :| 0 <= i < ring[k].header.length as nat && ring[k].header.mbarr[i].dirtyBits != 0 &&
             more[j] == (k * n + i, ring[k].header.mbarr[i].sector);
    assert RegisteredBy(crc, ring, w[m - 1], n, i, more[j]);
  }

  /**
   * Every dirty entry among the first `length` entries of a slot that one of
   * the first m visits applied is registered.
   */
  lemma {:induction false} ReplayLogComplete(crc: Crc, ring: seq<SegmentImage>, w: seq<nat>, m: nat, n: nat,
                                             t: nat, i: nat, e: (nat, u64))
    requires m <= |w| && InRing(w, ring) && RingFits(ring, n)
    requires t < m && RegisteredBy(crc, ring, w[t], n, i, e)
    ensures e in ReplayLog(crc, ring, w, m, n)
  {
    var k := w[m - 1];
    if t < m - 1 {
      ReplayLogComplete(crc, ring, w, m - 1, n, t, i, e);
    } else {
      HeaderLogHas(k * n, ring[k].header, i);
    }
  }

  /** Header entry i below the length, when dirty, registers block base + i under its sector. */
  lemma HeaderLogHas(base: nat, h: SegmentHeaderDevice, i: nat)
    requires h.length as nat <= |h.mbarr| && i < h.length as nat && h.mbarr[i].dirtyBits != 0
    ensures (base + i, h.mbarr[i].sector) in HeaderLog(base, h)
  {
    DirtyLogSpec(base, h.mbarr, h.length as nat);
  }

  /**
   * The block a lookup of sector s finds after the registrations of `log`:
   * the block of the last registration of s.
   */
  function LastWriter(log: seq<(nat, u64)>, s: nat): Option<nat>
  {
    if log == [] then None
    else if log[|log| - 1].1 == s then Some(log[|log| - 1].0)
    else LastWriter(log[..|log| - 1], s)
  }

  /**
   * The last writer of s is the block of a registration of s after which no
   * registration of s follows, and there is none exactly when s was never
   * registered.
   */
  lemma {:induction false} LastWriterSpec(log: seq<(nat, u64)>, s: nat)
    ensures var r := LastWriter(log, s);
            r.Some? ==> exists j :: 0 <= j < |log| && log[j] == (r.value, s) &&
                                    forall u :: j < u < |log| ==> log[u].1 != s
    ensures LastWriter(log, s).None? <==> forall j :: 0 <= j < |log| ==> log[j].1 != s
  {
    if log != [] && log[|log| - 1].1 != s {
      var front := log[..|log| - 1];
      LastWriterSpec(front, s);
      assert forall j :: 0 <= j < |front| ==> front[j] == log[j];
      var r := LastWriter(log, s);
      if r.Some? {
        var j :| 0 <= j < |front| && front[j] == (r.value, s) && forall u :: j < u < |front| ==> front[u].1 != s;
        assert log[j] == (r.value, s);
      }
    }
  }

  /** One more registration of s by block b makes b what a lookup of s finds; other sectors are unaffected. */
  lemma LastWriterSnoc(log: seq<(nat, u64)>, b: nat, key: u64)
    ensures forall s: nat :: LastWriter(log + [(b, key)], s) == if s == key then Some(b) else LastWriter(log, s)
  {
    assert (log + [(b, key)])[..|log|] == log;
  }

  /**
   * What a lookup finds after replay: nothing exactly when no applied slot
   * among the visited ones has a dirty entry for the sector, and otherwise a
   * block that such an entry names.
   */
  lemma ReplayLookup(crc: Crc, ring: seq<SegmentImage>, w: seq<nat>, m: nat, n: nat, s: u64)
    requires m <= |w| && InRing(w, ring) && RingFits(ring, n)
    ensures var found := LastWriter(ReplayLog(crc, ring, w, m, n), s);
            found.None? <==> forall t, i, b: nat :: 0 <= t < m ==> !RegisteredBy(crc, ring, w[t], n, i, (b, s))
    ensures var found := LastWriter(ReplayLog(crc, ring, w, m, n), s);
            found.Some? ==> FromVisits(crc, ring, w, m, n, (found.value, s))
  {
    var log := ReplayLog(crc, ring, w, m, n);
    LastWriterSpec(log, s);
    ReplayLogSources(crc, ring, w, m, n);
    var found := LastWriter(log, s);
    if found.Some? {
      var j :| 0 <= j < |log| && log[j] == (found.value, s) && forall u :: j < u < |log| ==> log[u].1 != s;
      var t, i :| 0 <= t < m && RegisteredBy(crc, ring, w[t], n, i, log[j]);
    } else {
      forall t, i, b: nat | 0 <= t < m
        ensures !RegisteredBy(crc, ring, w[t], n, i, (b, s))
      {
        if RegisteredBy(crc, ring, w[t], n, i, (b, s)) {
          ReplayLogComplete(crc, ring, w, m, n, t, i, (b, s));
        }
      }
    }
  }

  /** Registrations of other sectors appended to a log do not change what a lookup of s finds. */
  lemma {:induction false} LastWriterAppendOther(prev: seq<(nat, u64)>, more: seq<(nat, u64)>, s: nat)
    requires forall j :: 0 <= j < |more| ==> more[j].1 != s
    ensures LastWriter(prev + more, s) == LastWriter(prev, s)
  {
    if more == [] {
      assert prev + more == prev;
    } else {
      var front := more[..|more| - 1];
      assert (prev + more)[..|prev + more| - 1] == prev + front;
      LastWriterAppendOther(prev, front, s);
    }
  }

  /** Once the appended registrations hold one of s, a lookup of s finds what they alone give. */
  lemma {:induction false} LastWriterAppendSome(prev: seq<(nat, u64)>, more: seq<(nat, u64)>, s: nat, j: nat)
    requires j < |more| && more[j].1 == s
    ensures LastWriter(prev + more, s) == LastWriter(more, s)
  {
    var front := more[..|more| - 1];
    assert (prev + more)[..|prev + more| - 1] == prev + front;
    if more[|more| - 1].1 != s {
      assert front[j] == more[j];
      LastWriterAppendSome(prev, front, s, j);
    }
  }

  /**
   * Entries with a dirty entry for sector s among the first m: a lookup of s
   * after their registrations finds one of their blocks, one whose entry is
   * a dirty entry for s.
   */
  lemma {:induction false} DirtyLogFinds(base: nat, entries: seq<MetablockDevice>, m: nat, i: nat, s: u64)
    requires m <= |entries| && i < m
    requires entries[i].dirtyBits != 0 && entries[i].sector == s
    ensures var found := LastWriter(DirtyLog(base, entries, m), s);
            found.Some? && base <= found.value < base + m &&
            entries[found.value - base].dirtyBits != 0 && entries[found.value - base].sector == s
  {
    var prev := DirtyLog(base, entries, m - 1);
    var e := entries[m - 1];
    if e.dirtyBits != 0 && e.sector == s {
      assert DirtyLog(base, entries, m) == prev + [(base + m - 1, s as u64)];
    } else {
      var more: seq<(nat, u64)> := if e.dirtyBits != 0 then [(base + m - 1, e.sector)] else [];
      assert DirtyLog(base, entries, m) == prev + more;
      LastWriterAppendOther(prev, more, s);
      DirtyLogFinds(base, entries, m - 1, i, s);
    }
  }

  /** A header without a dirty entry for sector s below its length registers nothing for s. */
  lemma HeaderLogMisses(base: nat, h: SegmentHeaderDevice, s: u64)
    requires h.length as nat <= |h.mbarr|
    requires forall i :: 0 <= i < h.length as nat && h.mbarr[i].dirtyBits != 0 ==> h.mbarr[i].sector != s
    ensures forall j :: 0 <= j < |HeaderLog(base, h)| ==> HeaderLog(base, h)[j].1 != s
  {
    DirtyLogSpec(base, h.mbarr, h.length as nat);
  }

  /**
   * Newest visit wins: when visit t registers sector s and no later visit
   * among the first m does, a lookup of s after those visits finds a block
   * that an entry of visit t's slot registered for s.
   */
  lemma {:induction false} LatestVisitWins(crc: Crc, ring: seq<SegmentImage>, w: seq<nat>, m: nat, n: nat,
                                          t: nat, i: nat, b: nat, s: u64)
    requires m <= |w| && InRing(w, ring) && RingFits(ring, n)
    requires t < m && RegisteredBy(crc, ring, w[t], n, i, (b, s))
    requires forall t2: nat, i2: nat, b2: nat :: t < t2 < m ==> !RegisteredBy(crc, ring, w[t2], n, i2, (b2, s))
    ensures var found := LastWriter(ReplayLog(crc, ring, w, m, n), s);
            found.Some? && exists i2 :: RegisteredBy(crc, ring, w[t], n, i2, (found.value, s))
  {
    var k := w[m - 1];
    var h := ring[k].header;
    var prev := ReplayLog(crc, ring, w, m - 1, n);
    if t == m - 1 {
      DirtyLogFinds(k * n, h.mbarr, h.length as nat, i, s);
      HeaderLogHas(k * n, h, i);
      var j :| 0 <= j < |HeaderLog(k * n, h)| && HeaderLog(k * n, h)[j] == (b, s);
      LastWriterAppendSome(prev, HeaderLog(k * n, h), s, j);
      var found := LastWriter(HeaderLog(k * n, h), s);
      assert RegisteredBy(crc, ring, w[t], n, found.value - k * n, (found.value, s));
    } else {
      LatestVisitWins(crc, ring, w, m - 1, n, t, i, b, s);
      if Applies(crc, ring[k]) {
        forall i2 | 0 <= i2 < h.length as nat && h.mbarr[i2].dirtyBits != 0
          ensures h.mbarr[i2].sector != s
        {
          assert !RegisteredBy(crc, ring, w[m - 1], n, i2, (k * n + i2, s));
        }
        HeaderLogMisses(k * n, h, s);
        LastWriterAppendOther(prev, HeaderLog(k * n, h), s);
      }
    }
  }

  /**
   * The in-core blocks after entries 0 .. m-1 of header h were applied to the
   * segment whose first block is base: those blocks take the entries'
   * sector and dirty bits, every other block is as in orig.
   */
  function RestoreEntries(orig: seq<Metablock>, base: nat, h: SegmentHeaderDevice, m: nat): (r: seq<Metablock>)
    requires m <= |h.mbarr|
    ensures |r| == |orig|
    ensures forall b :: 0 <= b < |orig| ==>
              r[b] == if base <= b < base + m then RestoredBlock(orig[b], h, b - base) else orig[b]
  {
    seq(|orig|, b requires 0 <= b < |orig| =>
      if base <= b < base + m then RestoredBlock(orig[b], h, b - base) else orig[b])
  }

  /** Restoring one more entry rewrites that entry's block alone. */
  lemma RestoreEntriesStep(orig: seq<Metablock>, base: nat, h: SegmentHeaderDevice, m: nat)
    requires m < |h.mbarr| && base + m < |orig|
    ensures RestoreEntries(orig, base, h, m + 1)
            == RestoreEntries(orig, base, h, m)[base + m := RestoredBlock(orig[base + m], h, m)]
  {
  }

  /** The in-core blocks after the first t visits of the order w. */
  function ReplayedBlocks(crc: Crc, ring: seq<SegmentImage>, w: seq<nat>, t: nat, n: nat,
                          orig: seq<Metablock>): (r: seq<Metablock>)
    requires t <= |w| && InRing(w, ring) && RingFits(ring, n)
    ensures |r| == |orig|
  {
    if t == 0 then orig
    else
      var k := w[t - 1];
      var prev := ReplayedBlocks(crc, ring, w, t - 1, n, orig);
      if Applies(crc, ring[k]) then RestoreEntries(prev, k * n, ring[k].header, ring[k].header.length as nat)
      else prev
  }

  /** The in-core segment headers after the first t visits of w: applied slots take the stored length. */
  function ReplayedSegs(crc: Crc, ring: seq<SegmentImage>, w: seq<nat>, t: nat,
                        orig: seq<SegmentHeader>): (r: seq<SegmentHeader>)
    requires t <= |w| && InRing(w, ring) && |orig| == |ring|
    ensures |r| == |orig|
  {
    if t == 0 then orig
    else
      var k := w[t - 1];
      var prev := ReplayedSegs(crc, ring, w, t - 1, orig);
      if Applies(crc, ring[k]) then prev[k := prev[k].(length := ring[k].header.length as nat)] else prev
  }

  /** An order that visits no slot twice. */
  predicate Distinct(w: seq<nat>)
  {
    forall t1, t2 :: 0 <= t1 < t2 < |w| ==> w[t1] != w[t2]
  }

  /**
   * After the first t visits of an order that visits no slot twice, a block
   * holds its header entry exactly when its slot has been visited and applied
   * and its position is below that header's length; every other block is as
   * it was.
   */
  lemma {:induction false} ReplayedBlocksAt(crc: Crc, ring: seq<SegmentImage>, w: seq<nat>, t: nat, n: nat,
                                            orig: seq<Metablock>, b: nat)
    requires 1 <= n && t <= |w| && InRing(w, ring) && RingFits(ring, n) && Distinct(w)
    requires b < |orig|
    ensures var k, i := b / n, b % n;
            ReplayedBlocks(crc, ring, w, t, n, orig)[b]
            == if k in w[..t] && Applies(crc, ring[k]) && i < ring[k].header.length as nat
               then RestoredBlock(orig[b], ring[k].header, i) else orig[b]
  {
    if t > 0 {
      ReplayedBlocksAt(crc, ring, w, t - 1, n, orig, b);
      var k := w[t - 1];
      assert w[..t] == w[..t - 1] + [k];
      assert b / n == k ==> k !in w[..t - 1];
      if Applies(crc, ring[k]) {
        var prev := ReplayedBlocks(crc, ring, w, t - 1, n, orig);
        RestoreEntriesAt(prev, k, n, ring[k].header, ring[k].header.length as nat, b);
      }
    }
  }

  /**
   * After the whole window: block b, entry i of slot k, holds its header entry exactly
   * when the slot applies and i is below the slot's stored length; every
   * other block keeps its reset state.
   */
  lemma ReplayedBlocksFull(crc: Crc, ring: seq<SegmentImage>, maxId: u64, n: nat, orig: seq<Metablock>,
                           k: nat, i: nat, b: nat)
    requires 1 <= |ring| && RingFits(ring, n) && k < |ring| && i < n && b == k * n + i && b < |orig|
    ensures ReplayedBlocks(crc, ring, VisitOrder(maxId, |ring|), |ring|, n, orig)[b]
            == if Applies(crc, ring[k]) && i < ring[k].header.length as nat
               then RestoredBlock(orig[b], ring[k].header, i) else orig[b]
  {
    FullWindow(maxId, |ring|);
    DivModUnique(b, n, k, i);
    ReplayedBlocksAt(crc, ring, VisitOrder(maxId, |ring|), |ring|, n, orig, b);
  }

  /** The whole visit order covers every slot of the ring once. */
  lemma FullWindow(maxId: u64, n: nat)
    requires 1 <= n
    ensures var w := VisitOrder(maxId, n);
            |w| == n && Distinct(w) && forall k :: 0 <= k < n ==> k in w[..n]
  {
    var w := VisitOrder(maxId, n);
    WindowVisitsEachSlotOnce(SegmentIdToIdx(Inc64(maxId), n), n);
    assert w[..n] == w;
  }

  /** Restoring a header's first m entries touches block b exactly when b lies in that segment below m. */
  lemma RestoreEntriesAt(prev: seq<Metablock>, k: nat, n: nat, h: SegmentHeaderDevice, m: nat, b: nat)
    requires 1 <= n && m <= n && m <= |h.mbarr| && b < |prev|
    ensures RestoreEntries(prev, k * n, h, m)[b]
            == if b / n == k && b % n < m then RestoredBlock(prev[b], h, b % n) else prev[b]
  {
    IsOnBufferIffOwnSegment(k, b, n);
    if b / n == k {
      DivModUnique(b, n, k, b - k * n);
    }
  }

  /** After the first t visits, a slot's header carries the stored length exactly when it was visited and applied. */
  lemma {:induction false} ReplayedSegsAt(crc: Crc, ring: seq<SegmentImage>, w: seq<nat>, t: nat,
                                          orig: seq<SegmentHeader>, k: nat)
    requires t <= |w| && InRing(w, ring) && |orig| == |ring| && k < |orig|
    ensures ReplayedSegs(crc, ring, w, t, orig)[k]
            == if k in w[..t] && Applies(crc, ring[k])
               then orig[k].(length := ring[k].header.length as nat) else orig[k]
  {
    if t > 0 {
      ReplayedSegsAt(crc, ring, w, t - 1, orig, k);
      assert w[..t] == w[..t - 1] + [w[t - 1]];
    }
  }

  /**
   * infer_last_migrated_id: the recorded id, raised to last_flushed - n when
   * the ring has wrapped (a segment n ids old has been overwritten, so it
   * must have been migrated).
   */
  function InferredLastMigrated(lastFlushed: u64, n: nat, recordId: u64): (m: u64)
    ensures recordId <= m
    ensures lastFlushed > n ==> lastFlushed - n <= m
    ensures m == recordId || (lastFlushed > n && m == lastFlushed - n) || m == 0
  {
    var floor: u64 := if lastFlushed > n then lastFlushed - n else 0;
    if recordId > floor then recordId else floor
  }

  /**
   * The ring as the flusher leaves it when its largest id is maxId: every
   * written slot holds one of the last n ids, in the slot segment_id_to_idx
   * assigns to that id.
   */
  predicate Cyclic(ring: seq<SegmentImage>, maxId: u64)
  {
    forall k :: 0 <= k < |ring| && ring[k].header.id != 0 ==>
      ring[k].header.id <= maxId < ring[k].header.id + |ring| &&
      SegmentIdToIdx(ring[k].header.id, |ring|) == k
  }

  /** The visit order apply_valid_segments follows when find_max_id returned maxId. */
  function VisitOrder(maxId: u64, n: nat): seq<nat>
    requires 1 <= n
  {
    Window(SegmentIdToIdx(Inc64(maxId), n), n)
  }

  /** In a cyclic ring the t-th slot visited holds id maxId - n + 1 + t, if any. */
  lemma IdAtVisit(maxId: u64, n: nat, t: nat, j: u64)
    requires 1 <= n && t < n && 1 <= j <= maxId < j + n
    requires SegmentIdToIdx(j, n) == (maxId % n + t) % n
    ensures j + n == maxId + 1 + t
  {
    ModAddLeft(maxId, t, n);
    DivModUnique(j - 1 + n, n, (j - 1) / n + 1, (j - 1) % n);
    SameResidueClose(j - 1 + n, maxId + t, n);
  }

  /**
   * In a cyclic ring the window visits the written slots oldest first: ids
   * strictly increase along the visit order, so a later application is a
   * newer write.
   */
  lemma WindowOldestFirst(ring: seq<SegmentImage>, maxId: u64)
    requires 1 <= |ring| && Cyclic(ring, maxId)
    ensures var w := VisitOrder(maxId, |ring|);
            forall t1, t2 :: 0 <= t1 < t2 < |ring| && ring[w[t1]].header.id != 0 && ring[w[t2]].header.id != 0 ==>
              ring[w[t1]].header.id < ring[w[t2]].header.id
  {
    var n := |ring|;
    var w := VisitOrder(maxId, n);
    SlotOfNextId(maxId, n);
    forall t | 0 <= t < n && ring[w[t]].header.id != 0
      ensures ring[w[t]].header.id + n == maxId + 1 + t
    {
      IdAtVisit(maxId, n, t, ring[w[t]].header.id);
    }
  }

  /**
   * The codec round trip: a segment image prepared from the blocks start ..
   * start+length-1 under a non-zero id passes the replay test, and applying
   * it gives each of those blocks back its sector and dirty bits and leaves
   * every other block as it was.
   */
  lemma PreparedSegmentReplays(crc: Crc, img: SegmentImage, blocks: seq<Metablock>, start: nat, length: nat,
                               id: u64, orig: seq<Metablock>)
    requires start + length <= |blocks| && length <= |img.header.mbarr| && length <= |img.data| && length < 256
    requires id != 0
    ensures var out := Render(crc, img, DeviceEntries(blocks, start, length), id);
            var restored := RestoreEntries(orig, start, out.header, length);
            Applies(crc, out) && out.header.length as nat == length &&
            (forall b :: start <= b < start + length && b < |orig| ==>
               restored[b].sector == blocks[b].sector && restored[b].dirtyBits == blocks[b].dirtyBits &&
               restored[b].idx == orig[b].idx) &&
            (forall b :: 0 <= b < |orig| && !(start <= b < start + length) ==> restored[b] == orig[b])
  {
    var entries := DeviceEntries(blocks, start, length);
    var out := Render(crc, img, entries, id);
    forall i | 0 <= i < length
      ensures out.header.mbarr[i] == entries[i]
    {
      assert Entries(out.header)[i] == out.header.mbarr[i];
    }
  }

  /**
   * Newest write wins after a whole replay of the ring the flusher leaves:
   * when slot k's segment registers sector s and no applied segment with a
   * larger id does, a lookup of s finds a block that slot k registered for
   * s, however many older segments also wrote s.
   */
  lemma NewestWriteWins(crc: Crc, ring: seq<SegmentImage>, n: nat, k: nat, i: nat, b: nat, s: u64)
    requires 1 <= |ring| && RingFits(ring, n) && Cyclic(ring, MaxId(ring)) && k < |ring|
    requires RegisteredBy(crc, ring, k, n, i, (b, s))
    requires forall k2: nat, i2: nat, b2: nat :: k2 < |ring| && ring[k2].header.id > ring[k].header.id ==>
               !RegisteredBy(crc, ring, k2, n, i2, (b2, s))
    ensures var found := LastWriter(ReplayLog(crc, ring, VisitOrder(MaxId(ring), |ring|), |ring|, n), s);
            found.Some? && exists i2 :: RegisteredBy(crc, ring, k, n, i2, (found.value, s))
  {
    var w := VisitOrder(MaxId(ring), |ring|);
    FullWindow(MaxId(ring), |ring|);
    assert k in w[..|ring|];
    var t :| 0 <= t < |ring| && w[t] == k;
    forall t2: nat, i2: nat, b2: nat | t < t2 < |ring|
      ensures !RegisteredBy(crc, ring, w[t2], n, i2, (b2, s))
    {
      if RegisteredBy(crc, ring, w[t2], n, i2, (b2, s)) {
        LaterVisitNewer(ring, MaxId(ring), t, t2);
      }
    }
    LatestVisitWins(crc, ring, w, |ring|, n, t, i, b, s);
  }

  /** One instance of WindowOldestFirst: of two written slots, the later visited holds the larger id. */
  lemma LaterVisitNewer(ring: seq<SegmentImage>, maxId: u64, t1: nat, t2: nat)
    requires 1 <= |ring| && Cyclic(ring, maxId) && t1 < t2 < |ring|
    ensures var w := VisitOrder(maxId, |ring|);
            ring[w[t1]].header.id != 0 && ring[w[t2]].header.id != 0 ==>
              ring[w[t1]].header.id < ring[w[t2]].header.id
  {
    WindowOldestFirst(ring, maxId);
  }
}
