/** pte_map and pte_unmap on values, and the finite-map operations they refine. */
module PageMap {
  import opened Collections
  import opened PageEntry
  import opened PageTree

  const PTE_PAGE_4K: nat := 0
  const PTE_PAGE_2M: nat := 1
  const PTE_PAGE_1G: nat := 2

  /** The bytes of a page of size i. */
  function PageBytes(i: nat): nat {
    if i == PTE_PAGE_4K then 0x1000 else if i == PTE_PAGE_2M then 0x20_0000 else 0x4000_0000
  }

  // lines 25-51: the level-1 table exists
  function Map4KUnderMem(m: Mem, r: Word, pg: Page, leaf: Word, a: Word): Option<Mem>
    requires WF(m, r) && PageOk(pg) && Has(m, r, L1(pg.i2)) && Frame(a) !in m && Align4K(a) == a
  {
    var a1 := ExtractNaddr(Ent(m, r, pg.i2));
    var e1 := Ent(m, a1, pg.i1);
    TreeFacts(m, r, pg);
    if IsTable(e1) then
      var a0 := ExtractNaddr(e1);
      if IsInvalid(Ent(m, a0, pg.i0)) then Some(Store(m, a0, pg.i0, leaf)) else None
    else if IsInvalid(e1) then
      LinkSizes(m, r, L1(pg.i2), pg.i1, a, a);
      Some(Store(Link(m, r, L1(pg.i2), pg.i1, a), a, pg.i0, leaf))
    else None
  }

  function Map4KMem(m: Mem, r: Word, pg: Page, leaf: Word, a: Word, b: Word): Option<Mem>
    requires WF(m, r) && FreshPair(m, a, b) && PageOk(pg)
  {
    var e2 := Ent(m, r, pg.i2);
    if IsTable(e2) then Map4KUnderMem(m, r, pg, leaf, a)
    else if IsInvalid(e2) then
      LinkTwice(m, r, pg, a, b);
      var m1 := Link(m, r, Root, pg.i2, a);
      Some(Store(Link(m1, r, L1(pg.i2), pg.i1, b), b, pg.i0, leaf))
    else None
  }

  function Fill2M(m: Mem, a1: Word, pg: Page, leaf: Word): Option<Mem>
    requires Sized(m, a1) && PageOk(pg)
  {
    if IsInvalid(Ent(m, a1, pg.i1)) then Some(Store(m, a1, pg.i1, leaf)) else None
  }

  function Map2MMem(m: Mem, r: Word, pg: Page, leaf: Word, a: Word): Option<Mem>
    requires WF(m, r) && PageOk(pg) && Frame(a) !in m && Align4K(a) == a
  {
    var e2 := Ent(m, r, pg.i2);
    TreeFacts(m, r, pg);
    if IsTable(e2) then Fill2M(m, ExtractNaddr(e2), pg, leaf)
    else if IsInvalid(e2) then
      LinkSizes(m, r, Root, pg.i2, a, a);
      Some(Store(Link(m, r, Root, pg.i2, a), a, pg.i1, leaf))
    else None
  }

  /** pte_map for page pg and leaf entry `leaf`; a and b are the pages pmem_alloc returns, in order.
      None is KERNEL_PANIC. */
  function MapMem(m: Mem, r: Word, pg: Page, leaf: Word, size: int, a: Word, b: Word): Option<Mem>
    requires WF(m, r) && FreshPair(m, a, b) && PageOk(pg)
  {
    TreeFacts(m, r, pg);
    if size == PTE_PAGE_4K then Map4KMem(m, r, pg, leaf, a, b)
    else if size == PTE_PAGE_2M then Map2MMem(m, r, pg, leaf, a)
    else if size == PTE_PAGE_1G then
      if IsInvalid(Ent(m, r, pg.i2)) then Some(Store(m, r, pg.i2, leaf)) else None
    else None
  }

  /** The tables a walk for pg visits are in memory. */
  predicate Present(m: Mem, r: Word, pg: Page) {
    && PageOk(pg) && Sized(m, r)
    && (Has(m, r, L1(pg.i2)) ==> Sized(m, Addr(m, r, L1(pg.i2))))
    && (Has(m, r, L0(pg.i2, pg.i1)) ==> Sized(m, Addr(m, r, L0(pg.i2, pg.i1))))
  }

  // lines 128-151: the level-1 table exists
  function UnmapUnderMem(m: Mem, r: Word, pg: Page): Option<Mem>
    requires Present(m, r, pg) && Has(m, r, L1(pg.i2))
  {
    var a1 := ExtractNaddr(Ent(m, r, pg.i2));
    var e1 := Ent(m, a1, pg.i1);
    if IsInvalid(e1) then None
    else if IsTable(e1) then UnmapLevel0Mem(m, ExtractNaddr(e1), pg)
    else Some(Store(m, a1, pg.i1, 0))
  }

  function UnmapLevel0Mem(m: Mem, a0: Word, pg: Page): Option<Mem>
    requires Sized(m, a0) && PageOk(pg)
  {
    if IsInvalid(Ent(m, a0, pg.i0)) then None else Some(Store(m, a0, pg.i0, 0))
  }

  /** pte_unmap; None is KERNEL_PANIC. */
  function UnmapMem(m: Mem, r: Word, pg: Page): Option<Mem>
    requires Present(m, r, pg)
  {
    var e2 := Ent(m, r, pg.i2);
    if IsInvalid(e2) then None
    else if IsTable(e2) then UnmapUnderMem(m, r, pg)
    else Some(Store(m, r, pg.i2, 0))
  }

  /** Two distinct page-aligned pages outside the tree. */
  ghost predicate FreshPair(m: Mem, a: Word, b: Word) {
    a != b && Frame(a) !in m && Frame(b) !in m && Align4K(a) == a && Align4K(b) == b
  }

  lemma TreeFacts(m: Mem, r: Word, pg: Page)
    requires WF(m, r) && PageOk(pg)
    ensures Present(m, r, pg)
    ensures Sized(m, r)
    ensures Has(m, r, L1(pg.i2)) ==> Sized(m, Addr(m, r, L1(pg.i2)))
    ensures Has(m, r, L0(pg.i2, pg.i1)) ==> Sized(m, Addr(m, r, L0(pg.i2, pg.i1)))
  {
    assert InPlace(m, r, Root);
    if Has(m, r, L1(pg.i2)) { assert InPlace(m, r, L1(pg.i2)); }
    if Has(m, r, L0(pg.i2, pg.i1)) { assert InPlace(m, r, L0(pg.i2, pg.i1)); }
  }

  /** An entry that is invalid is zero. */
  lemma InvalidIsZero(m: Mem, r: Word, n: Node, k: nat)
    requires WF(m, r) && Has(m, r, n) && k < ENTRIES
    ensures IsInvalid(Ent(m, Addr(m, r, n), k)) <==> Ent(m, Addr(m, r, n), k) == 0
  {
    var e := Ent(m, Addr(m, r, n), k);
    assert EntryOk(Level(n), e);
    Kinds(e);
  }

  lemma LinkTwice(m: Mem, r: Word, pg: Page, a: Word, b: Word)
    requires WF(m, r) && FreshPair(m, a, b) && PageOk(pg) && IsInvalid(Ent(m, r, pg.i2))
    ensures Linkable(m, r, Root, pg.i2, a)
    ensures var m1 := Link(m, r, Root, pg.i2, a);
            && WF(m1, r) && Addr(m1, r, L1(pg.i2)) == a && Has(m1, r, L1(pg.i2))
            && Linkable(m1, r, L1(pg.i2), pg.i1, b)
            && Sized(Link(m1, r, L1(pg.i2), pg.i1, b), b)
  {
    TreeFacts(m, r, pg);
    InvalidIsZero(m, r, Root, pg.i2);
    var m1 := Link(m, r, Root, pg.i2, a);
    LinkKeepsWF(m, r, Root, pg.i2, a);
    LinkNodes(m, r, Root, pg.i2, a, L1(pg.i2));
    LinkEnt(m, r, Root, pg.i2, a, a, pg.i1);
    assert Frame(b) !in m1;
    assert a != r;
    assert Ent(m, a, pg.i1) == 0;
    assert InPlace(m1, r, L1(pg.i2));
    LinkSizes(m1, r, L1(pg.i2), pg.i1, b, b);
  }

  // ----- placing a leaf

  /** The table that holds the leaf of a mapping of this size. */
  function NodeFor(pg: Page, size: nat): Node {
    if size == 2 then Root else if size == 1 then L1(pg.i2) else L0(pg.i2, pg.i1)
  }

  /** A walk ends in that table exactly for the pages of the region. */
  lemma EndsHereIff(m: Mem, r: Word, pg: Page, size: nat, q: Page)
    requires PageOk(pg) && PageOk(q) && size <= 2
    requires var n := NodeFor(pg, size); Has(m, r, n) && !IsTable(Ent(m, Addr(m, r, n), IndexAt(n, pg)))
    ensures var n := NodeFor(pg, size);
            LastNode(m, r, q) == n && IndexAt(n, q) == IndexAt(n, pg) <==> InRegion(q, pg, size)
  {}

  lemma PlaceLeaf(m: Mem, r: Word, pg: Page, size: nat, v: Word, q: Page)
    requires WF(m, r) && PageOk(pg) && PageOk(q) && size <= 2
    requires var n := NodeFor(pg, size); Has(m, r, n) && Ent(m, Addr(m, r, n), IndexAt(n, pg)) == 0
    requires IsLeaf(v)
    ensures var n := NodeFor(pg, size);
            && Sized(m, Addr(m, r, n))
            && var m' := Store(m, Addr(m, r, n), IndexAt(n, pg), v);
               && WF(m', r)
               && Lookup(m', r, q) == (if InRegion(q, pg, size) then LeafOf(size, v) else Lookup(m, r, q))
               && m'.Keys == m.Keys
  {
    var n := NodeFor(pg, size);
    var k := IndexAt(n, pg);
    PlaceKeepsWF(m, r, n, k, v);
    StoreLookup(m, r, n, k, v, q);
    EndsHereIff(m, r, pg, size, q);
  }

  lemma PlaceKeepsWF(m: Mem, r: Word, n: Node, k: nat, v: Word)
    requires WF(m, r) && Has(m, r, n) && k < ENTRIES && IsLeaf(v) && Ent(m, Addr(m, r, n), k) == 0
    ensures !IsTable(v) && !IsTable(Ent(m, Addr(m, r, n), k)) && Sized(m, Addr(m, r, n))
    ensures WF(Store(m, Addr(m, r, n), k, v), r)
    ensures Store(m, Addr(m, r, n), k, v).Keys == m.Keys
  {
    Kinds(v);
    Kinds(0);
    StoreKeepsWF(m, r, n, k, v);
  }

  lemma LinkKeys(m: Mem, r: Word, n: Node, k: nat, a: Word)
    requires Linkable(m, r, n, k, a)
    ensures Link(m, r, n, k, a).Keys == m.Keys + {Frame(a)}
  {}

  /** Link a fresh table under an empty entry, ready for an entry one level down. */
  lemma LinkReady(m: Mem, r: Word, n: Node, k: nat, a: Word, j: nat, q: Page)
    requires Linkable(m, r, n, k, a) && PageOk(q)
    ensures var m' := Link(m, r, n, k, a);
            && WF(m', r) && Has(m', r, Child(n, k)) && Addr(m', r, Child(n, k)) == a && Ent(m', a, j) == 0
            && Sized(m', a) && Lookup(m', r, q) == Lookup(m, r, q)
  {
    LinkKeepsWF(m, r, n, k, a);
    LinkNodes(m, r, n, k, a, Child(n, k));
    LinkEnt(m, r, n, k, a, a, j);
    LinkSizes(m, r, n, k, a, a);
    LinkLookup(m, r, n, k, a, q);
  }

  /** The pages a mapping takes from the allocator. */
  function TakenBy(m: Mem, r: Word, pg: Page, size: int, a: Word, b: Word): set<Frame> {
    var e2 := Ent(m, r, pg.i2);
    if size == PTE_PAGE_4K && IsTable(e2) then
      if IsTable(Ent(m, ExtractNaddr(e2), pg.i1)) then {} else {Frame(a)}
    else if size == PTE_PAGE_4K then {Frame(a), Frame(b)}
    else if size == PTE_PAGE_2M && !IsTable(e2) then {Frame(a)}
    else {}
  }

  /** The outcome of a successful pte_map, as seen by page q. */
  ghost predicate Inserted(m: Mem, m': Mem, r: Word, pg: Page, size: nat, leaf: Word, taken: set<Frame>, q: Page) {
    && WF(m', r)
    && Lookup(m', r, q) == (if InRegion(q, pg, size) then LeafOf(size, leaf) else Lookup(m, r, q))
    && m'.Keys == m.Keys + taken
  }

  /** pte_map refines insertion: on success the pages of the region, and no others, get the new leaf. */
  lemma MapRefines(m: Mem, r: Word, pg: Page, leaf: Word, size: int, a: Word, b: Word, q: Page)
    requires WF(m, r) && FreshPair(m, a, b) && IsLeaf(leaf) && PageOk(pg) && PageOk(q)
    requires MapMem(m, r, pg, leaf, size, a, b).Some?
    ensures 0 <= size <= 2
    ensures Inserted(m, MapMem(m, r, pg, leaf, size, a, b).value, r, pg, size, leaf, TakenBy(m, r, pg, size, a, b), q)
  {
    TreeFacts(m, r, pg);
    if size == PTE_PAGE_4K {
      if Has(m, r, L0(pg.i2, pg.i1)) {
        Map4KInPlace(m, r, pg, leaf, a, b, q);
      } else if Has(m, r, L1(pg.i2)) {
        Map4KNewTable(m, r, pg, leaf, a, b, q);
      } else {
        Map4KNewTables(m, r, pg, leaf, a, b, q);
      }
    } else if size == PTE_PAGE_2M {
      Map2MRefines(m, r, pg, leaf, a, b, q);
    } else {
      InvalidIsZero(m, r, Root, pg.i2);
      PlaceLeaf(m, r, pg, 2, leaf, q);
    }
  }

  lemma Map4KInPlace(m: Mem, r: Word, pg: Page, leaf: Word, a: Word, b: Word, q: Page)
    requires WF(m, r) && FreshPair(m, a, b) && IsLeaf(leaf) && PageOk(pg) && PageOk(q)
    requires MapMem(m, r, pg, leaf, PTE_PAGE_4K, a, b).Some? && Has(m, r, L0(pg.i2, pg.i1))
    ensures Inserted(m, MapMem(m, r, pg, leaf, PTE_PAGE_4K, a, b).value, r, pg, 0, leaf, {}, q)
  {
    InvalidIsZero(m, r, L0(pg.i2, pg.i1), pg.i0);
    PlaceLeaf(m, r, pg, 0, leaf, q);
  }

  lemma Map4KNewTable(m: Mem, r: Word, pg: Page, leaf: Word, a: Word, b: Word, q: Page)
    requires WF(m, r) && FreshPair(m, a, b) && IsLeaf(leaf) && PageOk(pg) && PageOk(q)
    requires MapMem(m, r, pg, leaf, PTE_PAGE_4K, a, b).Some?
    requires Has(m, r, L1(pg.i2)) && !Has(m, r, L0(pg.i2, pg.i1))
    ensures Inserted(m, MapMem(m, r, pg, leaf, PTE_PAGE_4K, a, b).value, r, pg, 0, leaf, {Frame(a)}, q)
  {
    TreeFacts(m, r, pg);
    InvalidIsZero(m, r, L1(pg.i2), pg.i1);
    LinkReady(m, r, L1(pg.i2), pg.i1, a, pg.i0, q);
    LinkKeys(m, r, L1(pg.i2), pg.i1, a);
    PlaceLeaf(Link(m, r, L1(pg.i2), pg.i1, a), r, pg, 0, leaf, q);
  }

  lemma Map4KNewTables(m: Mem, r: Word, pg: Page, leaf: Word, a: Word, b: Word, q: Page)
    requires WF(m, r) && FreshPair(m, a, b) && IsLeaf(leaf) && PageOk(pg) && PageOk(q)
    requires MapMem(m, r, pg, leaf, PTE_PAGE_4K, a, b).Some? && !Has(m, r, L1(pg.i2))
    ensures Inserted(m, MapMem(m, r, pg, leaf, PTE_PAGE_4K, a, b).value, r, pg, 0, leaf, {Frame(a), Frame(b)}, q)
  {
    LinkTwice(m, r, pg, a, b);
    LinkReady(m, r, Root, pg.i2, a, pg.i1, q);
    LinkKeys(m, r, Root, pg.i2, a);
    var m1 := Link(m, r, Root, pg.i2, a);
    LinkReady(m1, r, L1(pg.i2), pg.i1, b, pg.i0, q);
    LinkKeys(m1, r, L1(pg.i2), pg.i1, b);
    PlaceLeaf(Link(m1, r, L1(pg.i2), pg.i1, b), r, pg, 0, leaf, q);
  }

  lemma Map2MRefines(m: Mem, r: Word, pg: Page, leaf: Word, a: Word, b: Word, q: Page)
    requires WF(m, r) && FreshPair(m, a, b) && IsLeaf(leaf) && PageOk(pg) && PageOk(q)
    requires MapMem(m, r, pg, leaf, PTE_PAGE_2M, a, b).Some?
    ensures Inserted(m, MapMem(m, r, pg, leaf, PTE_PAGE_2M, a, b).value, r, pg, 1, leaf,
                     TakenBy(m, r, pg, PTE_PAGE_2M, a, b), q)
  {
    hide WF, Lookup;
    TreeFacts(m, r, pg);
    if Has(m, r, L1(pg.i2)) {
      InvalidIsZero(m, r, L1(pg.i2), pg.i1);
      PlaceLeaf(m, r, pg, 1, leaf, q);
    } else {
      InvalidIsZero(m, r, Root, pg.i2);
      LinkReady(m, r, Root, pg.i2, a, pg.i1, q);
      LinkKeys(m, r, Root, pg.i2, a);
      PlaceLeaf(Link(m, r, Root, pg.i2, a), r, pg, 1, leaf, q);
    }
  }

  /** Some page of the region is mapped. */
  ghost predicate RegionMapped(m: Mem, r: Word, pg: Page, size: nat) {
    exists q :: PageOk(q) && InRegion(q, pg, size) && Lookup(m, r, q).Some?
  }

  /** A table, possibly empty, already hangs where a superpage leaf would go. */
  predicate TableInTheWay(m: Mem, r: Word, pg: Page, size: int) {
    (size == PTE_PAGE_2M && Has(m, r, L0(pg.i2, pg.i1))) || (size == PTE_PAGE_1G && Has(m, r, L1(pg.i2)))
  }

  /** pte_map panics exactly when the size is unknown, a page of the region is mapped, or a table is in
      the way. For 4 KiB pages that means: exactly when the page is mapped. */
  lemma MapPanicsIff(m: Mem, r: Word, pg: Page, leaf: Word, size: int, a: Word, b: Word)
    requires WF(m, r) && FreshPair(m, a, b) && PageOk(pg)
    ensures MapMem(m, r, pg, leaf, size, a, b).None?
            <==> !(0 <= size <= 2) || RegionMapped(m, r, pg, size) || TableInTheWay(m, r, pg, size)
  {
    if size == 0 {
      Panics4K(m, r, pg, leaf, a, b);
      RegionMappedOrTable(m, r, pg, 0);
    } else if size == 1 {
      Panics2M(m, r, pg, leaf, a);
      RegionMappedOrTable(m, r, pg, 1);
    } else if size == 2 {
      Panics1G(m, r, pg, leaf, a, b);
      RegionMappedOrTable(m, r, pg, 2);
    }
  }

  lemma Panics4K(m: Mem, r: Word, pg: Page, leaf: Word, a: Word, b: Word)
    requires WF(m, r) && FreshPair(m, a, b) && PageOk(pg)
    ensures Map4KMem(m, r, pg, leaf, a, b).None? <==> Lookup(m, r, pg).Some?
  {
    hide WF, Link, Store;
  }

  lemma Panics2M(m: Mem, r: Word, pg: Page, leaf: Word, a: Word)
    requires WF(m, r) && Frame(a) !in m && Align4K(a) == a && PageOk(pg)
    ensures Map2MMem(m, r, pg, leaf, a).None? <==> Lookup(m, r, pg).Some? || Has(m, r, L0(pg.i2, pg.i1))
  {
    Kinds(Ent(m, Addr(m, r, L1(pg.i2)), pg.i1));
  }

  lemma Panics1G(m: Mem, r: Word, pg: Page, leaf: Word, a: Word, b: Word)
    requires WF(m, r) && FreshPair(m, a, b) && PageOk(pg)
    ensures MapMem(m, r, pg, leaf, PTE_PAGE_1G, a, b).None? <==> Lookup(m, r, pg).Some? || Has(m, r, L1(pg.i2))
  {
    Kinds(Ent(m, r, pg.i2));
  }

  lemma RegionMappedOrTable(m: Mem, r: Word, pg: Page, size: nat)
    requires PageOk(pg) && size <= 2
    ensures RegionMapped(m, r, pg, size) || TableInTheWay(m, r, pg, size)
            <==> Lookup(m, r, pg).Some? || TableInTheWay(m, r, pg, size)
  {
    assert InRegion(pg, pg, size);
  }

  // ----- unmapping

  /** pte_unmap clears the last entry of the walk, and panics exactly when it is already clear. */
  lemma UnmapIs(m: Mem, r: Word, pg: Page)
    requires WF(m, r) && PageOk(pg)
    ensures Present(m, r, pg)
    ensures var n := LastNode(m, r, pg);
            && Has(m, r, n) && Sized(m, Addr(m, r, n)) && IndexAt(n, pg) < ENTRIES
            && UnmapMem(m, r, pg) == if Lookup(m, r, pg).None? then None
                                     else Some(Store(m, Addr(m, r, n), IndexAt(n, pg), 0))
    ensures !IsTable(LastEntry(m, r, pg))
  {
    TreeFacts(m, r, pg);
    LastNodeHas(m, r, pg);
    var n := LastNode(m, r, pg);
    assert EntryOk(Level(n), Ent(m, Addr(m, r, n), IndexAt(n, pg)));
    Kinds(0);
    Kinds(LastEntry(m, r, pg));
    Kinds(Ent(m, r, pg.i2));
    Kinds(Ent(m, Addr(m, r, L1(pg.i2)), pg.i1));
  }

  /** pte_unmap refines deletion of the whole leaf that covers the page. */
  lemma UnmapRefines(m: Mem, r: Word, pg: Page, q: Page)
    requires WF(m, r) && PageOk(pg) && PageOk(q)
    ensures Present(m, r, pg)
    ensures UnmapMem(m, r, pg).Some? <==> Lookup(m, r, pg).Some?
    ensures UnmapMem(m, r, pg).Some? ==>
              var m' := UnmapMem(m, r, pg).value;
              && WF(m', r) && m'.Keys == m.Keys
              && Lookup(m', r, q) == (if InRegion(q, pg, Lookup(m, r, pg).value.size) then None else Lookup(m, r, q))
  {
    hide WF;
    UnmapIs(m, r, pg);
    Kinds(0);
    if Lookup(m, r, pg).Some? {
      var n := LastNode(m, r, pg);
      StoreKeepsWF(m, r, n, IndexAt(n, pg), 0);
      StoreLookup(m, r, n, IndexAt(n, pg), 0, q);
      LastNodeHas(m, r, pg);
      LastNodeHas(m, r, q);
    }
  }

  /** Unmapping what was just mapped restores the earlier map. */
  lemma UnmapUndoesMap(m: Mem, r: Word, pg: Page, leaf: Word, size: int, a: Word, b: Word, q: Page)
    requires WF(m, r) && FreshPair(m, a, b) && IsLeaf(leaf) && PageOk(pg) && PageOk(q)
    requires MapMem(m, r, pg, leaf, size, a, b).Some?
    ensures var m1 := MapMem(m, r, pg, leaf, size, a, b).value;
            && WF(m1, r) && Present(m1, r, pg) && UnmapMem(m1, r, pg).Some?
            && Lookup(UnmapMem(m1, r, pg).value, r, q) == Lookup(m, r, q)
  {
    MapRefines(m, r, pg, leaf, size, a, b, q);
    MapRefines(m, r, pg, leaf, size, a, b, pg);
    var m1 := MapMem(m, r, pg, leaf, size, a, b).value;
    Kinds(leaf);
    UnmapRefines(m1, r, pg, q);
    if InRegion(q, pg, size) && Lookup(m, r, q).Some? {
      MapPanicsIff(m, r, pg, leaf, size, a, b);
    }
  }

  /** The empty table that unmapping leaves behind still blocks a superpage there, though no page of the
      region is mapped. */
  lemma EmptyTableBlocksSuperpage(m: Mem, r: Word, pg: Page, leaf: Word, a: Word, b: Word, c: Word, d: Word)
    requires WF(m, r) && FreshPair(m, a, b) && IsLeaf(leaf) && PageOk(pg)
    requires MapMem(m, r, pg, leaf, PTE_PAGE_4K, a, b).Some?
    requires !RegionMapped(m, r, pg, 1)
    requires FreshPair(MapMem(m, r, pg, leaf, PTE_PAGE_4K, a, b).value, c, d)
    ensures var m1 := MapMem(m, r, pg, leaf, PTE_PAGE_4K, a, b).value;
            && WF(m1, r) && Present(m1, r, pg) && UnmapMem(m1, r, pg).Some?
            && var m2 := UnmapMem(m1, r, pg).value;
               && WF(m2, r) && !RegionMapped(m2, r, pg, 1)
               && FreshPair(m2, c, d) && MapMem(m2, r, pg, leaf, PTE_PAGE_2M, c, d).None?
  {
    MapRefines(m, r, pg, leaf, PTE_PAGE_4K, a, b, pg);
    var m1 := MapMem(m, r, pg, leaf, PTE_PAGE_4K, a, b).value;
    UnmapRefines(m1, r, pg, pg);
    var m2 := UnmapMem(m1, r, pg).value;
    forall q | PageOk(q) && InRegion(q, pg, 1) ensures Lookup(m2, r, q).None? {
      UnmapUndoesMap(m, r, pg, leaf, PTE_PAGE_4K, a, b, q);
    }
    UnmapIs(m1, r, pg);
    LastNodeHas(m1, r, pg);
    Kinds(leaf);
    Kinds(0);
    assert LastNode(m1, r, pg) == L0(pg.i2, pg.i1);
    StoreKeepsNodes(m1, r, L0(pg.i2, pg.i1), pg.i0, 0, L0(pg.i2, pg.i1));
    MapPanicsIff(m2, r, pg, leaf, PTE_PAGE_2M, c, d);
  }
}
