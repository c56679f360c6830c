/** pte_range_map and pte_range_unmap of kernel/pte.c: runs of 4 KiB pages. */
module PageRange {
  import opened Defs
  import opened Collections
  import opened Bits
  import opened PageEntry
  import opened Words
  import opened PageTree
  import opened PageMap
  import opened PageTable
  import Sv39

  function NextPage(p: Word): Word {
    p + 0x1000
  }

  /** pa + k * 4096, on 64-bit words. */
  function Nth(pa: Word, k: nat): Word {
    if k == 0 then pa else NextPage(Nth(pa, k - 1))
  }

  /** Page k of a range at va. */
  function PageAt(va: nat, k: nat): Page {
    PageOf(va + k * PAGE_SIZE)
  }

  /** Pages that cover `length` bytes; the last one may be covered in part. */
  function Count(length: nat): nat {
    (length + PAGE_SIZE - 1) / PAGE_SIZE
  }

  /** The translations of the first n pages of a range. */
  function Leaves(va: nat, pa: Word, flags: Word, n: nat): (s: seq<(Page, Leaf)>)
    ensures |s| == n
  {
    if n == 0 then [] else Leaves(va, pa, flags, n - 1) + [(PageAt(va, n - 1), Leaf(0, Align4K(Nth(pa, n - 1)), flags))]
  }

  lemma {:induction false} LeavesAt(va: nat, pa: Word, flags: Word, n: nat, k: nat)
    requires k < n
    ensures Leaves(va, pa, flags, n)[k] == (PageAt(va, k), Leaf(0, Align4K(Nth(pa, k)), flags))
    decreases n
  {
    if k < n - 1 { LeavesAt(va, pa, flags, n - 1, k); }
  }

  ghost predicate DistinctPages(va: nat, n: nat) {
    forall j: nat, k: nat :: j < k < n ==> PageAt(va, j) != PageAt(va, k)
  }

  /** Some page of the first n is mapped. */
  ghost predicate SomeMapped(m: Mem, r: Word, va: nat, n: nat) {
    exists k: nat :: k < n && Lookup(m, r, PageAt(va, k)).Some?
  }

  lemma {:induction false} DistinctStep(m0: Mem, m: Mem, r: Word, va: nat, pa: Word, flags: Word, k: nat)
    requires Added(m0, m, r, Leaves(va, pa, flags, k)) && DistinctPages(va, k) && Lookup(m, r, PageAt(va, k)) == None
    ensures DistinctPages(va, k + 1)
  {
    forall j: nat | j < k ensures PageAt(va, j) != PageAt(va, k) { LeavesAt(va, pa, flags, k, j); }
  }

  const ADDRESSES: nat := 0x1_0000_0000_0000_0000

  /** Virtual address va + off is in a 4 KiB leaf with these flags, and physical address pa + off in its frame. */
  predicate Reaches(m: Mem, r: Word, va: nat, pa: nat, off: nat, flags: Word) {
    match Lookup(m, r, PageOf(va + off))
    case None => false
    case Some(leaf) =>
      leaf.size == 0 && leaf.flags == flags && Value(leaf.base) == (pa + off) / PAGE_SIZE * PAGE_SIZE
  }

  /** Every byte of the range whose physical address is below 2^64: byte off at va is byte off at pa. */
  ghost predicate BytesReached(m: Mem, r: Word, va: nat, pa: Word, flags: Word, length: nat) {
    forall off: nat :: off < length && Value(pa) + off < ADDRESSES ==> Reaches(m, r, va, Value(pa), off, flags)
  }

  /** The hardware takes such an address to the physical address: frame and offset add up to it. */
  lemma ReachedByHardware(m: Mem, r: Word, va: nat, pa: nat, off: nat, flags: Word)
    requires WF(m, r) && Sv39.Physical(m) && va + off < Sv39.VA_END && Sv39.Canonical(va + off)
    requires va % PAGE_SIZE == 0 && pa % PAGE_SIZE == 0 && Reaches(m, r, va, pa, off, flags)
             && !Sv39.WriteOnly(flags)
    ensures var t := Sv39.HwTranslate(m, r, va + off); t.Maps? && Value(t.frame) + t.offset == pa + off
  {
    hide WF, Sv39.Physical, Lookup, Sv39.HwTranslate, Value, Sv39.Unaligned;
    Sv39.HardwareAgrees(m, r, va + off);
    Sv39.LeafAligned(m, r, PageOf(va + off));
  }

  /** Page k of the physical range. */
  lemma {:induction false} NthFrame(pa: Word, k: nat)
    requires FrameNumber(pa) + k < Pow2(PAGE_BITS)
    ensures FrameNumber(Nth(pa, k)) == FrameNumber(pa) + k
    decreases k
  {
    hide FrameNumber, Pow2;
    if k > 0 {
      NthFrame(pa, k - 1);
      NextFrame(Nth(pa, k - 1));
    }
  }

  lemma {:induction false} PowByte(k: nat)
    ensures Pow2(k + 8) == 0x100 * Pow2(k)
  {
    assert Pow2(k + 8) == 2 * Pow2(k + 7) && Pow2(k + 7) == 2 * Pow2(k + 6) && Pow2(k + 6) == 2 * Pow2(k + 5);
    assert Pow2(k + 5) == 2 * Pow2(k + 4) && Pow2(k + 4) == 2 * Pow2(k + 3) && Pow2(k + 3) == 2 * Pow2(k + 2);
    assert Pow2(k + 2) == 2 * Pow2(k + 1) && Pow2(k + 1) == 2 * Pow2(k);
  }

  lemma {:induction false} PageBitsPow()
    ensures Pow2(PAGE_BITS) == 0x10_0000_0000_0000
  {
    var four: nat := 4;
    assert Pow2(four) == 16;
    hide Pow2;
    PowByte(four);
    PowByte(12);
    PowByte(20);
    PowByte(28);
    PowByte(36);
    PowByte(44);
  }

  lemma {:induction false} RangeBytes(m0: Mem, m: Mem, r: Word, va: nat, pa: Word, flags: Word, length: nat)
    requires Added(m0, m, r, Leaves(va, pa, flags, Count(length)))
    requires va % PAGE_SIZE == 0 && Value(pa) % PAGE_SIZE == 0
    ensures BytesReached(m, r, va, pa, flags, length)
  {
    hide Leaves, Lookup, PageOf, Value, Nth, Align4K, FrameNumber, Pow2, PageOk;
    forall off: nat | off < length && Value(pa) + off < ADDRESSES
      ensures Reaches(m, r, va, Value(pa), off, flags)
    {
      var k := off / PAGE_SIZE;
      LeavesAt(va, pa, flags, Count(length), k);
      FrameOfValue(pa);
      PageBitsPow();
      NthFrame(pa, k);
      AlignedValue(Nth(pa, k));
      SamePage(va + k * PAGE_SIZE, va + off);
    }
  }

  /** pte_range_map: every page of the range is mapped in order and nothing else changes. It panics exactly when
      it meets a page that is mapped: one that was before, or one of the range met before. */
  method RangeMap(t: PageTables, va: nat, pa: Word, flags: Word, length: nat) returns (panic: bool)
    requires t.Valid() && LeafFlags(flags) && |t.pool| >= 2 * Count(length)
    modifies t`mem, t`pool
    ensures t.Valid()
    ensures !panic ==> Added(old(t.mem), t.mem, t.root, Leaves(va, pa, flags, Count(length)))
    ensures !panic && va % PAGE_SIZE == 0 && Value(pa) % PAGE_SIZE == 0 ==>
              BytesReached(t.mem, t.root, va, pa, flags, length)
    ensures panic <==> SomeMapped(old(t.mem), t.root, va, Count(length)) || !DistinctPages(va, Count(length))
  {
    hide NextPage, Nth, Align4K, LeafFlags, TreeOk, PoolOk, SomeMapped, DistinctPages, Mapping, PageTables.Valid,
      Added, Leaves, BytesReached, Value;
    ghost var m0, n := t.mem, Count(length);
    NothingAdded(m0, t.root, va, pa, flags);
    var offset: nat, p := 0, pa;
    ghost var k: nat := 0;
    panic := false;
    while offset + PAGE_SIZE <= length && !panic
      invariant t.Valid() && offset == k * PAGE_SIZE && k <= n && |t.pool| >= 2 * (n - k)
      invariant !panic ==> Mapping(m0, t.mem, t.root, va, pa, p, flags, k)
      invariant panic ==> SomeMapped(m0, t.root, va, n) || !DistinctPages(va, n)
      decreases length - offset, !panic
    {
      panic, p := MapNext(t, va, offset, pa, p, flags, k, n, m0);
      offset, k := offset + PAGE_SIZE, k + 1;
    }
    if !panic && offset < length {
      panic, p := MapNext(t, va, offset, pa, p, flags, k, n, m0);
    }
    if !panic {
      AllAdded(m0, t.mem, t.root, va, pa, p, flags, n);
      if va % PAGE_SIZE == 0 && Value(pa) % PAGE_SIZE == 0 { RangeBytes(m0, t.mem, t.root, va, pa, flags, length); }
    }
  }

  /** The first k pages of the range have been mapped without a panic, and p is the next physical address. */
  ghost predicate Mapping(m0: Mem, m: Mem, r: Word, va: nat, pa: Word, p: Word, flags: Word, k: nat) {
    Added(m0, m, r, Leaves(va, pa, flags, k)) && DistinctPages(va, k) && p == Nth(pa, k)
  }

  method MapNext(t: PageTables, va: nat, offset: nat, ghost pa: Word, p: Word, flags: Word, ghost k: nat, ghost n: nat,
                 ghost m0: Mem)
    returns (panic: bool, next: Word)
    requires t.Valid() && LeafFlags(flags) && |t.pool| >= 2 && offset == k * PAGE_SIZE && k < n
    requires Mapping(m0, t.mem, t.root, va, pa, p, flags, k)
    modifies t`mem, t`pool
    ensures t.Valid() && |t.pool| >= |old(t.pool)| - 2
    ensures !panic ==> Mapping(m0, t.mem, t.root, va, pa, next, flags, k + 1)
    ensures panic ==> SomeMapped(m0, t.root, va, n) || !DistinctPages(va, n)
  {
    hide NextPage, Align4K, LeafFlags, TreeOk, PoolOk, Added, DistinctPages, SomeMapped, Vpn0, Vpn1, Vpn2;
    ghost var m := t.mem;
    panic := t.MapPage(m0, Leaves(va, pa, flags, k), va + offset, p, flags);
    next := NextPage(p);
    if panic {
      AlreadyMapped(m0, m, t.root, va, pa, flags, k, n);
    } else {
      DistinctStep(m0, m, t.root, va, pa, flags, k);
    }
  }

  lemma {:induction false} AllAdded(m0: Mem, m: Mem, r: Word, va: nat, pa: Word, p: Word, flags: Word, n: nat)
    requires Mapping(m0, m, r, va, pa, p, flags, n)
    ensures Added(m0, m, r, Leaves(va, pa, flags, n)) && !SomeMapped(m0, r, va, n) && DistinctPages(va, n)
  {
    var done := Leaves(va, pa, flags, n);
    hide Leaves, Lookup, PageAt;
    forall k: nat | k < n ensures Lookup(m0, r, PageAt(va, k)) == None {
      LeavesAt(va, pa, flags, n, k);
      assert done[k].0 == PageAt(va, k);
    }
  }

  lemma {:induction false} NothingAdded(m: Mem, r: Word, va: nat, pa: Word, flags: Word)
    ensures Mapping(m, m, r, va, pa, pa, flags, 0)
  {}

  lemma {:induction false} AlreadyMapped(m0: Mem, m: Mem, r: Word, va: nat, pa: Word, flags: Word, k: nat, n: nat)
    requires Added(m0, m, r, Leaves(va, pa, flags, k)) && Lookup(m, r, PageAt(va, k)).Some? && k < n
    ensures SomeMapped(m0, r, va, n) || !DistinctPages(va, n)
  {
    var q := PageAt(va, k);
    if j: nat :| j < k && PageAt(va, j) == q {
    } else {
      forall j | 0 <= j < k ensures Leaves(va, pa, flags, k)[j].0 != q { LeavesAt(va, pa, flags, k, j); }
      assert Lookup(m0, r, q).Some?;
    }
  }

  // ----- unmapping

  /** Unmapping pg takes the translation of q: both are in one leaf. */
  predicate Hits(m: Mem, r: Word, pg: Page, q: Page) {
    Lookup(m, r, pg).Some? && InRegion(q, pg, Lookup(m, r, pg).value.size)
  }

  /** q is in a leaf that one of the first n pages of the range is in. */
  ghost predicate Touched(m: Mem, r: Word, va: nat, n: nat, q: Page) {
    exists k: nat :: k < n && Hits(m, r, PageAt(va, k), q)
  }

  /** m is m0 without the leaves of the first n pages of the range. */
  ghost predicate Removed(m0: Mem, m: Mem, r: Word, va: nat, n: nat) {
    forall q :: PageOk(q) ==> Lookup(m, r, q) == if Touched(m0, r, va, n, q) then None else Lookup(m0, r, q)
  }

  /** No page of the range is in the leaf of an earlier one. */
  ghost predicate Separate(m: Mem, r: Word, va: nat, n: nat) {
    forall j: nat, k: nat :: j < k < n ==> !Hits(m, r, PageAt(va, j), PageAt(va, k))
  }

  ghost predicate AllMapped(m: Mem, r: Word, va: nat, n: nat) {
    forall k: nat :: k < n ==> Lookup(m, r, PageAt(va, k)).Some?
  }

  /** pte_range_unmap: exactly the leaves that the pages of the range are in lose their translation. It panics
      exactly when a page of the range is not mapped, or is in the leaf of an earlier one. */
  method RangeUnmap(t: PageTables, va: nat, length: nat) returns (panic: bool)
    requires t.Valid()
    modifies t`mem
    ensures t.Valid()
    ensures !panic ==> Removed(old(t.mem), t.mem, t.root, va, Count(length))
    ensures !panic
            <==> AllMapped(old(t.mem), t.root, va, Count(length)) && Separate(old(t.mem), t.root, va, Count(length))
  {
    hide TreeOk, PoolOk, Removed, AllMapped, Separate;
    ghost var m0, n := t.mem, Count(length);
    NothingRemoved(m0, t.root, va);
    var offset: nat := 0;
    ghost var k: nat := 0;
    panic := false;
    while offset + PAGE_SIZE <= length && !panic
      invariant t.Valid() && offset == k * PAGE_SIZE && k <= n
      invariant !panic ==> Unmapping(m0, t.mem, t.root, va, k)
      invariant panic ==> !(AllMapped(m0, t.root, va, n) && Separate(m0, t.root, va, n))
      decreases length - offset, !panic
    {
      panic := UnmapNext(t, va, offset, k, n, m0);
      offset, k := offset + PAGE_SIZE, k + 1;
    }
    if !panic && offset < length {
      panic := UnmapNext(t, va, offset, k, n, m0);
    }
  }

  /** The first k pages of the range have been unmapped without a panic. */
  ghost predicate Unmapping(m0: Mem, m: Mem, r: Word, va: nat, k: nat) {
    Removed(m0, m, r, va, k) && AllMapped(m0, r, va, k) && Separate(m0, r, va, k)
  }

  method UnmapNext(t: PageTables, va: nat, offset: nat, ghost k: nat, ghost n: nat, ghost m0: Mem) returns (panic: bool)
    requires t.Valid() && offset == k * PAGE_SIZE && k < n && Unmapping(m0, t.mem, t.root, va, k)
    modifies t`mem
    ensures t.Valid()
    ensures !panic ==> Unmapping(m0, t.mem, t.root, va, k + 1)
    ensures panic ==> !(AllMapped(m0, t.root, va, n) && Separate(m0, t.root, va, n))
  {
    ghost var m, pg := t.mem, PageAt(va, k);
    hide *;
    UnmapReady(t, va, k, offset);
    UnmapRefines(m, t.root, pg, pg);
    panic := t.PteUnmap(va + offset);
    if panic {
      UnmapPanics(m0, m, t.root, va, k, n);
    } else {
      UnmapOne(m0, m, t.mem, t.root, va, k);
    }
  }

  lemma UnmapReady(t: PageTables, va: nat, k: nat, offset: nat)
    requires t.Valid() && offset == k * PAGE_SIZE
    ensures WF(t.mem, t.root) && PageOk(PageAt(va, k)) && PageAt(va, k) == PageOf(va + offset)
  {}

  /** One pte_unmap in the middle of the loop. */
  lemma UnmapOne(m0: Mem, m: Mem, m': Mem, r: Word, va: nat, k: nat)
    requires WF(m, r) && Unmapping(m0, m, r, va, k)
    requires Lookup(m, r, PageAt(va, k)).Some? && Present(m, r, PageAt(va, k))
             && UnmapMem(m, r, PageAt(va, k)) == Some(m')
    ensures Unmapping(m0, m', r, va, k + 1)
  {
    hide WF, UnmapMem, Present, Lookup, InRegion;
    var pg := PageAt(va, k);
    assert !Touched(m0, r, va, k, pg);
    forall q | PageOk(q)
      ensures Lookup(m', r, q) == if Touched(m0, r, va, k + 1, q) then None else Lookup(m0, r, q)
    {
      UnmapRefines(m, r, pg, q);
      TouchedStep(m0, r, va, k, q);
    }
  }

  lemma TouchedStep(m: Mem, r: Word, va: nat, k: nat, q: Page)
    ensures Touched(m, r, va, k + 1, q) <==> Touched(m, r, va, k, q) || Hits(m, r, PageAt(va, k), q)
  {
    hide Hits;
  }

  lemma UnmapPanics(m0: Mem, m: Mem, r: Word, va: nat, k: nat, n: nat)
    requires Removed(m0, m, r, va, k) && k < n && Lookup(m, r, PageAt(va, k)).None?
    ensures !(AllMapped(m0, r, va, n) && Separate(m0, r, va, n))
  {
    hide Lookup, Hits;
    var pg := PageAt(va, k);
    if !Touched(m0, r, va, k, pg) { assert Lookup(m0, r, pg).None?; }
  }

  lemma NothingRemoved(m: Mem, r: Word, va: nat)
    ensures Unmapping(m, m, r, va, 0)
  {}

  // ----- the range alone

  ghost predicate InRange(q: Page, va: nat, n: nat) {
    exists k: nat :: k < n && PageAt(va, k) == q
  }

  /** The pages of the range that are mapped are mapped by 4 KiB leaves. */
  ghost predicate SmallLeaves(m: Mem, r: Word, va: nat, n: nat) {
    forall k: nat :: k < n && Lookup(m, r, PageAt(va, k)).Some? ==> Lookup(m, r, PageAt(va, k)).value.size == 0
  }

  /** The leaf of a page is that of every other page in it. */
  lemma OneLeaf(m: Mem, r: Word, pg: Page, q: Page)
    requires WF(m, r) && PageOk(pg) && PageOk(q) && Hits(m, r, pg, q)
    ensures Lookup(m, r, q) == Lookup(m, r, pg)
  {
    UnmapIs(m, r, pg);
    EndsHereIff(m, r, pg, Level(LastNode(m, r, pg)), q);
  }

  /** A page beside pg in a leaf of two megabytes or more. */
  function Beside(pg: Page): Page {
    Page(pg.i2, pg.i1, if pg.i0 == 0 then 1 else 0)
  }

  /** When a range is unmapped without a panic, nothing outside it loses its translation exactly when all its
      pages were mapped by 4 KiB leaves. */
  lemma RangeAloneIffSmall(m: Mem, r: Word, va: nat, n: nat)
    requires WF(m, r) && AllMapped(m, r, va, n) && Separate(m, r, va, n)
    ensures SmallLeaves(m, r, va, n) <==> forall q :: PageOk(q) && Touched(m, r, va, n, q) ==> InRange(q, va, n)
  {
    hide WF, Lookup, PageAt;
    if SmallLeaves(m, r, va, n) {
      forall q | PageOk(q) && Touched(m, r, va, n, q) ensures InRange(q, va, n) { SmallTouched(m, r, va, n, q); }
    } else {
      var k: nat :| k < n && Lookup(m, r, PageAt(va, k)).Some? && Lookup(m, r, PageAt(va, k)).value.size != 0;
      BesideMissed(m, r, va, n, k);
    }
  }

  lemma SmallTouched(m: Mem, r: Word, va: nat, n: nat, q: Page)
    requires SmallLeaves(m, r, va, n) && PageOk(q)
    ensures Touched(m, r, va, n, q) ==> InRange(q, va, n)
  {
    if Touched(m, r, va, n, q) {
      var k: nat :| k < n && Hits(m, r, PageAt(va, k), q);
      assert PageAt(va, k) == q;
    }
  }

  lemma BesideMissed(m: Mem, r: Word, va: nat, n: nat, k: nat)
    requires WF(m, r) && Separate(m, r, va, n) && k < n
    requires Lookup(m, r, PageAt(va, k)).Some? && Lookup(m, r, PageAt(va, k)).value.size != 0
    ensures var q := Beside(PageAt(va, k)); PageOk(q) && Touched(m, r, va, n, q) && !InRange(q, va, n)
  {
    var pg := PageAt(va, k);
    var q := Beside(pg);
    assert Hits(m, r, pg, q);
    OneLeaf(m, r, pg, q);
    hide WF, Lookup, PageAt;
    assert Hits(m, r, q, pg) && q != pg;
  }

  /** Unmapping a range that was just mapped does not panic, and restores the earlier translation of every page. */
  lemma {:induction false} RangeUnmapUndoesMap(m0: Mem, m: Mem, m': Mem, r: Word, va: nat, pa: Word, flags: Word,
                                               n: nat, q: Page)
    requires Added(m0, m, r, Leaves(va, pa, flags, n)) && DistinctPages(va, n) && PageOk(q)
    ensures AllMapped(m, r, va, n) && Separate(m, r, va, n)
    ensures Removed(m, m', r, va, n) ==> Lookup(m', r, q) == Lookup(m0, r, q)
  {
    var done := Leaves(va, pa, flags, n);
    forall k: nat | k < n ensures done[k] == (PageAt(va, k),
                                              Leaf(0, Align4K(Nth(pa, k)), flags)) { LeavesAt(va, pa, flags, n, k); }
    hide Align4K, NextPage, Lookup, PageAt;
    forall k: nat | k < n
      ensures Lookup(m, r, PageAt(va, k)).Some? && Lookup(m, r, PageAt(va, k)).value.size == 0
              && Lookup(m0, r, PageAt(va, k)) == None
      ensures PageOk(PageAt(va, k))
    {
      assert done[k].0 == PageAt(va, k);
    }
    forall j: nat, k: nat | j < k < n ensures !Hits(m, r, PageAt(va, j), PageAt(va, k)) {}
    if InRange(q, va, n) {
      var k: nat :| k < n && PageAt(va, k) == q;
      assert Hits(m, r, PageAt(va, k), q);
    } else {
      SmallTouched(m, r, va, n, q);
      forall k | 0 <= k < n ensures done[k].0 != q {}
    }
  }
}
