/** kernel/pte.c in place: the tables live in a memory that the methods rewrite entry by entry, and pages
    come from and go back to a page pool (pmem_alloc(0), pmem_free). */
module PageTable {
  import opened Collections
  import opened PageEntry
  import opened PageTree
  import opened PageMap

  ghost predicate PoolOk(pool: seq<Word>, m: Mem) {
    && (forall i :: 0 <= i < |pool| ==> Align4K(pool[i]) == pool[i] && Frame(pool[i]) !in m)
    && (forall i, j :: 0 <= i < j < |pool| ==> pool[i] != pool[j])
  }

  ghost function Frames(s: seq<Word>): set<Frame> {
    set i | 0 <= i < |s| :: Frame(s[i])
  }

  lemma FramesSplit(pool: seq<Word>, k: nat)
    requires k <= |pool|
    ensures Frames(pool) == Frames(pool[..k]) + Frames(pool[k..])
  {
    forall f | f in Frames(pool) ensures f in Frames(pool[..k]) + Frames(pool[k..]) {
      var i :| 0 <= i < |pool| && f == Frame(pool[i]);
      if i < k { assert pool[..k][i] == pool[i]; } else { assert pool[k..][i - k] == pool[i]; }
    }
  }

  /** All pages a table has taken are still in it, and every other page of the pool is unused. */
  ghost predicate TreeOk(m: Mem, r: Word) {
    WF(m, r) && NoStrays(m, r)
  }

  lemma MapKeepsNoStrays(m: Mem, r: Word, pg: Page, leaf: Word, size: int, a: Word, b: Word)
    requires TreeOk(m, r) && FreshPair(m, a, b) && PageOk(pg) && IsLeaf(leaf)
    requires MapMem(m, r, pg, leaf, size, a, b).Some?
    ensures NoStrays(MapMem(m, r, pg, leaf, size, a, b).value, r)
  {
    TreeFacts(m, r, pg);
    Kinds(leaf);
    Kinds(0);
    if size == PTE_PAGE_4K {
      if Has(m, r, L0(pg.i2, pg.i1)) {
        InvalidIsZero(m, r, L0(pg.i2, pg.i1), pg.i0);
        StoreKeepsNoStrays(m, r, L0(pg.i2, pg.i1), pg.i0, leaf);
      } else if Has(m, r, L1(pg.i2)) {
        InvalidIsZero(m, r, L1(pg.i2), pg.i1);
        LinkKeepsNoStrays(m, r, L1(pg.i2), pg.i1, a);
        LinkReady(m, r, L1(pg.i2), pg.i1, a, pg.i0, pg);
        StoreKeepsNoStrays(Link(m, r, L1(pg.i2), pg.i1, a), r, L0(pg.i2, pg.i1), pg.i0, leaf);
      } else {
        LinkTwice(m, r, pg, a, b);
        LinkKeepsNoStrays(m, r, Root, pg.i2, a);
        var m1 := Link(m, r, Root, pg.i2, a);
        LinkKeepsNoStrays(m1, r, L1(pg.i2), pg.i1, b);
        LinkReady(m1, r, L1(pg.i2), pg.i1, b, pg.i0, pg);
        StoreKeepsNoStrays(Link(m1, r, L1(pg.i2), pg.i1, b), r, L0(pg.i2, pg.i1), pg.i0, leaf);
      }
    } else if size == PTE_PAGE_2M {
      Map2MNoStrays(m, r, pg, leaf, a, b);
    } else {
      InvalidIsZero(m, r, Root, pg.i2);
      StoreKeepsNoStrays(m, r, Root, pg.i2, leaf);
    }
  }

  lemma Map2MNoStrays(m: Mem, r: Word, pg: Page, leaf: Word, a: Word, b: Word)
    requires TreeOk(m, r) && FreshPair(m, a, b) && PageOk(pg) && IsLeaf(leaf)
    requires MapMem(m, r, pg, leaf, PTE_PAGE_2M, a, b).Some?
    ensures NoStrays(MapMem(m, r, pg, leaf, PTE_PAGE_2M, a, b).value, r)
  {
    TreeFacts(m, r, pg);
    Kinds(leaf);
    Kinds(0);
    if Has(m, r, L1(pg.i2)) {
      InvalidIsZero(m, r, L1(pg.i2), pg.i1);
      StoreKeepsNoStrays(m, r, L1(pg.i2), pg.i1, leaf);
    } else {
      InvalidIsZero(m, r, Root, pg.i2);
      LinkKeepsNoStrays(m, r, Root, pg.i2, a);
      LinkReady(m, r, Root, pg.i2, a, pg.i1, pg);
      StoreKeepsNoStrays(Link(m, r, Root, pg.i2, a), r, L1(pg.i2), pg.i1, leaf);
    }
  }

  lemma UnmapKeepsNoStrays(m: Mem, r: Word, pg: Page)
    requires TreeOk(m, r) && Present(m, r, pg) && UnmapMem(m, r, pg).Some?
    ensures NoStrays(UnmapMem(m, r, pg).value, r)
  {
    UnmapIs(m, r, pg);
    Kinds(0);
    StoreKeepsNoStrays(m, r, LastNode(m, r, pg), IndexAt(LastNode(m, r, pg), pg), 0);
  }

  class PageTables {
    var root: Word
    var mem: Mem
    var pool: seq<Word>

    ghost predicate Valid()
      reads this
    {
      TreeOk(mem, root) && PoolOk(pool, mem)
    }

    /** The next page of the pool is page-aligned and outside the tree. */
    ghost predicate PageReady()
      reads this`mem, this`pool
    {
      pool != [] && Frame(pool[0]) !in mem && Align4K(pool[0]) == pool[0]
    }

    // pmem_alloc(0), then memset
    method TakeZeroed() returns (a: Word)
      requires pool != []
      modifies this`mem, this`pool
      ensures a == old(pool)[0] && pool == old(pool)[1..] && mem == Fresh(old(mem), a)
    {
      a := pool[0];
      pool := pool[1..];
      mem := mem[Frame(a) := EmptyTable()];
    }

    method Write(a: Word, i: nat, v: Word)
      requires Sized(mem, a) && i < ENTRIES
      modifies this`mem
      ensures mem == Store(old(mem), a, i, v)
    {
      mem := mem[Frame(a) := mem[Frame(a)][i := v]];
    }

    /** pte_create: a root with every page unmapped. */
    constructor (pages: seq<Word>)
      requires pages != [] && PoolOk(pages, map[])
      ensures Valid() && root == pages[0] && pool == pages[1..] && mem.Keys == {Frame(pages[0])}
      ensures forall q :: PageOk(q) ==> Lookup(mem, root, q) == None
    {
      root := pages[0];
      pool := pages[1..];
      mem := map[Frame(pages[0]) := EmptyTable()];
      new;
      FreshRoot(mem, root);
    }

    // lines 42-47: the level-0 table is filled before it is linked
    method NewLevel0(a1: Word, pg: Page, leaf: Word)
      requires WF(mem, root) && PageReady() && PageOk(pg)
      requires Has(mem, root, L1(pg.i2)) && a1 == Addr(mem, root, L1(pg.i2)) && Ent(mem, a1, pg.i1) == 0
      modifies this`mem, this`pool
      ensures var a := old(pool)[0];
              && pool == old(pool)[1..]
              && Linkable(old(mem), root, L1(pg.i2), pg.i1, a) && Sized(Link(old(mem), root, L1(pg.i2), pg.i1, a), a)
              && mem == Store(Link(old(mem), root, L1(pg.i2), pg.i1, a), a, pg.i0, leaf)
    {
      TreeFacts(mem, root, pg);
      LinkSizes(mem, root, L1(pg.i2), pg.i1, pool[0], pool[0]);
      var a0 := TakeZeroed();
      Write(a0, pg.i0, leaf);
      Write(a1, pg.i1, TableEntry(a0));
      FillOrder(old(mem), root, L1(pg.i2), pg.i1, a0, pg.i0, leaf);
    }

    // lines 85-89
    method NewLevel1(pg: Page, leaf: Word)
      requires WF(mem, root) && PageReady() && PageOk(pg) && IsInvalid(Ent(mem, root, pg.i2))
      modifies this`mem, this`pool
      ensures var a := old(pool)[0];
              && pool == old(pool)[1..] && Sized(old(mem), root) && Sized(Link(old(mem), root, Root, pg.i2, a), a)
              && mem == Store(Link(old(mem), root, Root, pg.i2, a), a, pg.i1, leaf)
    {
      TreeFacts(mem, root, pg);
      LinkSizes(mem, root, Root, pg.i2, pool[0], pool[0]);
      var a1 := TakeZeroed();
      Write(root, pg.i2, TableEntry(a1));
      Write(a1, pg.i1, leaf);
    }

    // lines 54-65
    method NewLevel1And0(pg: Page, leaf: Word)
      requires Valid() && |pool| >= 2 && PageOk(pg) && IsInvalid(Ent(mem, root, pg.i2))
      modifies this`mem, this`pool
      ensures var a, b := old(pool)[0], old(pool)[1];
              && pool == old(pool)[2..] && FreshPair(old(mem), a, b)
              && Linkable(old(mem), root, Root, pg.i2, a)
              && var m1 := Link(old(mem), root, Root, pg.i2, a);
                 && Linkable(m1, root, L1(pg.i2), pg.i1, b) && Sized(Link(m1, root, L1(pg.i2), pg.i1, b), b)
                 && mem == Store(Link(m1, root, L1(pg.i2), pg.i1, b), b, pg.i0, leaf)
    {
      hide WF, NoStrays;
      LinkTwice(mem, root, pg, pool[0], pool[1]);
      var a1 := TakeZeroed();
      var a0 := TakeZeroed();
      Write(root, pg.i2, TableEntry(a1));
      Write(a1, pg.i1, TableEntry(a0));
      Write(a0, pg.i0, leaf);
      LinkOrder(old(mem), root, pg, a1, a0);
    }

    /** pte_map: in place what MapMem says; true is KERNEL_PANIC, with nothing changed. */
    method PteMap(va: nat, pa: Word, flags: Word, size: int) returns (panic: bool)
      requires Valid() && |pool| >= 2
      modifies this`mem, this`pool
      ensures FreshPair(old(mem), old(pool)[0], old(pool)[1])
      ensures var a, b := old(pool)[0], old(pool)[1];
              var r := MapMem(old(mem), root, PageOf(va), LeafEntry(pa, flags), size, a, b);
              if panic then r == None && mem == old(mem) && pool == old(pool)
              else r == Some(mem) && pool == old(pool)[TakenCount(old(mem), root, PageOf(va), size)..]
      ensures Valid() || !LeafFlags(flags)
    {
      ghost var a, b, pg := pool[0], pool[1], PageOf(va);
      ghost var m := mem;
      TreeFacts(mem, root, PageOf(va));
      panic := MapEntry(va, LeafEntry(pa, flags), size);
      if LeafFlags(flags) && !panic {
        LeafEntryIsLeaf(pa, flags);
        MapRefines(m, root, pg, LeafEntry(pa, flags), size, a, b, pg);
        MapKeepsNoStrays(m, root, pg, LeafEntry(pa, flags), size, a, b);
        PoolAfterMap(m, root, pg, size, old(pool), mem);
      }
    }

    /** The pages of the tables and those still in the pool. */
    ghost function Owned(): set<Frame>
      reads this`mem, this`pool
    {
      mem.Keys + Frames(pool)
    }

    // the branches of pte_map, for the entry to be stored
    method MapEntry(va: nat, leaf: Word, size: int) returns (panic: bool)
      requires Valid() && |pool| >= 2
      modifies this`mem, this`pool
      ensures FreshPair(old(mem), old(pool)[0], old(pool)[1])
      ensures var r := MapMem(old(mem), root, PageOf(va), leaf, size, old(pool)[0], old(pool)[1]);
              if panic then r == None && mem == old(mem) && pool == old(pool)
              else r == Some(mem) && pool == old(pool)[TakenCount(old(mem), root, PageOf(va), size)..]
    {
      if size == PTE_PAGE_4K {
        panic := Map4K(PageOf(va), leaf);
      } else if size == PTE_PAGE_2M {
        panic := Map2M(PageOf(va), leaf);
      } else if size == PTE_PAGE_1G {
        panic := Map1G(PageOf(va), leaf);
      } else {
        // no such size
        panic := true;
      }
    }

    // lines 97-101
    method Map1G(pg: Page, leaf: Word) returns (panic: bool)
      requires Valid() && PageOk(pg)
      modifies this`mem
      ensures Sized(old(mem), root)
      ensures panic <==> !IsInvalid(Ent(old(mem), root, pg.i2))
      ensures mem == if panic then old(mem) else Store(old(mem), root, pg.i2, leaf)
    {
      TreeFacts(mem, root, pg);
      if !IsInvalid(mem[Frame(root)][pg.i2]) {
        return true;
      }
      Write(root, pg.i2, leaf);
      panic := false;
    }

    // lines 73-94
    method Map2M(pg: Page, leaf: Word) returns (panic: bool)
      requires WF(mem, root) && PageReady() && PageOk(pg)
      modifies this`mem, this`pool
      ensures var r := Map2MMem(old(mem), root, pg, leaf, old(pool)[0]);
              if panic then r == None && mem == old(mem) && pool == old(pool)
              else r == Some(mem) && pool == if IsTable(Ent(old(mem), root, pg.i2)) then old(pool) else old(pool)[1..]
    {
      TreeFacts(mem, root, pg);
      var e2 := mem[Frame(root)][pg.i2];
      if IsTable(e2) {
        assert Map2MMem(mem, root, pg, leaf, pool[0]) == Fill2M(mem, ExtractNaddr(e2), pg, leaf);
        panic := FillEntry(ExtractNaddr(e2), pg, leaf);
      } else if IsInvalid(e2) {
        NewLevel1(pg, leaf);
        panic := false;
      } else {
        panic := true;
      }
    }

    // lines 74-81
    method FillEntry(a1: Word, pg: Page, leaf: Word) returns (panic: bool)
      requires Sized(mem, a1) && PageOk(pg)
      modifies this`mem
      ensures if panic then Fill2M(old(mem), a1, pg, leaf) == None && mem == old(mem)
              else Fill2M(old(mem), a1, pg, leaf) == Some(mem)
    {
      if IsInvalid(mem[Frame(a1)][pg.i1]) {
        Write(a1, pg.i1, leaf);
        panic := false;
      } else {
        panic := true;
      }
    }

    // lines 24-70
    method Map4K(pg: Page, leaf: Word) returns (panic: bool)
      requires Valid() && |pool| >= 2 && PageOk(pg)
      modifies this`mem, this`pool
      ensures FreshPair(old(mem), old(pool)[0], old(pool)[1])
      ensures var r := Map4KMem(old(mem), root, pg, leaf, old(pool)[0], old(pool)[1]);
              if panic then r == None && mem == old(mem) && pool == old(pool)
              else r == Some(mem) && pool == old(pool)[TakenCount(old(mem), root, pg, PTE_PAGE_4K)..]
    {
      TreeFacts(mem, root, pg);
      var e2 := mem[Frame(root)][pg.i2];
      if IsTable(e2) {
        panic := Map4KUnder(ExtractNaddr(e2), pg, leaf);
      } else if IsInvalid(e2) {
        NewLevel1And0(pg, leaf);
        panic := false;
      } else {
        // the entry is taken
        panic := true;
      }
    }

    // lines 25-51
    method Map4KUnder(a1: Word, pg: Page, leaf: Word) returns (panic: bool)
      requires WF(mem, root) && PageReady() && PageOk(pg)
      requires Has(mem, root, L1(pg.i2)) && a1 == Addr(mem, root, L1(pg.i2))
      modifies this`mem, this`pool
      ensures var r := Map4KUnderMem(old(mem), root, pg, leaf, old(pool)[0]);
              if panic then r == None && mem == old(mem) && pool == old(pool)
              else r == Some(mem) && pool == if IsTable(Ent(old(mem), a1, pg.i1)) then old(pool) else old(pool)[1..]
    {
      TreeFacts(mem, root, pg);
      InvalidIsZero(mem, root, L1(pg.i2), pg.i1);
      var e1 := mem[Frame(a1)][pg.i1];
      if IsTable(e1) {
        var a0 := ExtractNaddr(e1);
        if IsInvalid(mem[Frame(a0)][pg.i0]) {
          Write(a0, pg.i0, leaf);
          panic := false;
        } else {
          // the entry is taken
          panic := true;
        }
      } else if IsInvalid(e1) {
        NewLevel0(a1, pg, leaf);
        panic := false;
      } else {
        panic := true;
      }
    }

    /** pte_unmap: in place what UnmapMem says; true is KERNEL_PANIC, with nothing changed. */
    method PteUnmap(va: nat) returns (panic: bool)
      requires Valid()
      modifies this`mem
      ensures Valid() && Present(old(mem), root, PageOf(va))
      ensures UnmapMem(old(mem), root, PageOf(va)) == if panic then None else Some(mem)
      ensures panic ==> mem == old(mem)
    {
      hide WF, NoStrays, UnmapMem, Lookup, PageOk, PageOf, Present;
      ghost var m, pg := mem, PageOf(va);
      VaIsPage(va);
      TreeFacts(mem, root, PageOf(va));
      UnmapRefines(m, root, pg, pg);
      if Lookup(m, root, pg).Some? { UnmapKeepsNoStrays(m, root, pg); }
      panic := UnmapEntry(PageOf(va));
    }

    // the branches of pte_unmap
    method UnmapEntry(pg: Page) returns (panic: bool)
      requires Present(mem, root, pg)
      modifies this`mem
      ensures UnmapMem(old(mem), root, pg) == if panic then None else Some(mem)
      ensures panic ==> mem == old(mem)
    {
      var e2 := mem[Frame(root)][pg.i2];
      if IsInvalid(e2) {
        return true;
      }
      if IsTable(e2) {
        panic := UnmapUnder(ExtractNaddr(e2), pg);
      } else {
        Write(root, pg.i2, 0);
        panic := false;
      }
    }

    // lines 129-151
    method UnmapUnder(a1: Word, pg: Page) returns (panic: bool)
      requires Present(mem, root, pg) && Has(mem, root, L1(pg.i2)) && a1 == Addr(mem, root, L1(pg.i2))
      modifies this`mem
      ensures if panic then UnmapUnderMem(old(mem), root, pg) == None && mem == old(mem)
              else UnmapUnderMem(old(mem), root, pg) == Some(mem)
    {
      var e1 := mem[Frame(a1)][pg.i1];
      if IsInvalid(e1) {
        panic := true;
      } else if IsTable(e1) {
        assert Has(mem, root, L0(pg.i2, pg.i1)) && UnmapUnderMem(mem, root, pg)
               == UnmapLevel0Mem(mem, ExtractNaddr(e1), pg);
        panic := UnmapLevel0(ExtractNaddr(e1), pg);
      } else {
        Write(a1, pg.i1, 0);
        panic := false;
      }
    }

    // lines 138-146
    method UnmapLevel0(a0: Word, pg: Page) returns (panic: bool)
      requires Sized(mem, a0) && PageOk(pg)
      modifies this`mem
      ensures if panic then UnmapLevel0Mem(old(mem), a0, pg) == None && mem == old(mem)
              else UnmapLevel0Mem(old(mem), a0, pg) == Some(mem)
    {
      if IsInvalid(mem[Frame(a0)][pg.i0]) {
        panic := true;
      } else {
        Write(a0, pg.i0, 0);
        panic := false;
      }
    }

    /** pte_walk: the leaf of a mapped page; flags 0, hence V = 0, exactly on unmapped pages. */
    method PteWalk(va: nat) returns (pa: Word, flags: Word, size: nat)
      requires Valid()
      ensures flags & 1 == 1 <==> Lookup(mem, root, PageOf(va)).Some?
      ensures Lookup(mem, root, PageOf(va)).Some? ==> Lookup(mem, root, PageOf(va)).value == Leaf(size, pa, flags)
      ensures Lookup(mem, root, PageOf(va)).None? ==> pa == 0 && flags == 0
    {
      TreeFacts(mem, root, PageOf(va));
      WalkEnd(mem, root, PageOf(va));
      var res;
      res, size := WalkEntry(PageOf(va));
      flags := ExtractFlags(res);
      pa := ExtractNaddr(res);
    }

    // lines 171-197
    method WalkEntry(pg: Page) returns (res: Word, size: nat)
      requires Present(mem, root, pg)
      ensures res == LastEntry(mem, root, pg) && size == Level(LastNode(mem, root, pg))
    {
      var e2 := mem[Frame(root)][pg.i2];
      if IsTable(e2) {
        var a1 := ExtractNaddr(e2);
        var e1 := mem[Frame(a1)][pg.i1];
        if IsTable(e1) {
          res, size := mem[Frame(ExtractNaddr(e1))][pg.i0], PTE_PAGE_4K;
        } else {
          res, size := e1, PTE_PAGE_2M;
        }
      } else {
        res, size := e2, PTE_PAGE_1G;
      }
    }

    /** pte_destory: gives back every page of the tree, each exactly once, and nothing else. */
    method PteDestroy() returns (freed: seq<Word>)
      requires Valid()
      modifies this`mem, this`pool
      ensures Frames(freed) == old(mem.Keys)
      ensures forall i, j :: 0 <= i < j < |freed| ==> freed[i] != freed[j]
      ensures mem == map[] && pool == old(pool) + freed
    {
      hide NoStrays, Lookup, WF;
      ghost var nodes: seq<Node> := [];
      freed := [];
      var i := 0;
      while i < ENTRIES
        invariant 0 <= i <= ENTRIES && mem == old(mem) && pool == old(pool)
        invariant Collected(mem, root, nodes, freed)
        invariant forall n :: n in nodes <==> Has(mem, root, n) && Before(n, i, 0)
      {
        TreeFacts(mem, root, Page(i, 0, 0));
        if IsTable(mem[Frame(root)][i]) {
          freed, nodes := FreeLevel1(i, ExtractNaddr(mem[Frame(root)][i]), freed, nodes);
        }
        i := i + 1;
      }
      freed := freed + [root];
      AllCollected(mem, root, nodes + [Root], freed);
      pool := pool + freed;
      mem := map[];
    }

    // lines 212-220
    method FreeLevel1(i: nat, p1: Word, freed0: seq<Word>, ghost nodes0: seq<Node>)
      returns (freed: seq<Word>, ghost nodes: seq<Node>)
      requires Sized(mem, p1) && Has(mem, root, L1(i)) && p1 == Addr(mem, root, L1(i))
      requires Collected(mem, root, nodes0, freed0)
      requires forall n :: n in nodes0 <==> Has(mem, root, n) && Before(n, i, 0)
      ensures Collected(mem, root, nodes, freed)
      ensures forall n :: n in nodes <==> Has(mem, root, n) && Before(n, i + 1, 0)
    {
      freed, nodes := FreeLevel0(i, p1, freed0, nodes0);
      assert L1(i) !in nodes;
      freed := freed + [p1];
      nodes := nodes + [L1(i)];
    }

    // lines 214-218
    method FreeLevel0(i: nat, p1: Word, freed0: seq<Word>, ghost nodes0: seq<Node>)
      returns (freed: seq<Word>, ghost nodes: seq<Node>)
      requires Sized(mem, p1) && Has(mem, root, L1(i)) && p1 == Addr(mem, root, L1(i))
      requires Collected(mem, root, nodes0, freed0)
      requires forall n :: n in nodes0 <==> Has(mem, root, n) && Before(n, i, 0)
      ensures Collected(mem, root, nodes, freed)
      ensures forall n :: n in nodes <==> Has(mem, root, n) && Before(n, i, ENTRIES)
    {
      freed, nodes := freed0, nodes0;
      var j := 0;
      while j < ENTRIES
        invariant 0 <= j <= ENTRIES
        invariant Collected(mem, root, nodes, freed)
        invariant forall n :: n in nodes <==> Has(mem, root, n) && Before(n, i, j)
      {
        if IsTable(mem[Frame(p1)][j]) {
          freed := freed + [ExtractNaddr(mem[Frame(p1)][j])];
          nodes := nodes + [L0(i, j)];
        }
        j := j + 1;
      }
    }

    /** m0 with the pages of `done` added; a panic means that page `next` is mapped already. */
    ghost predicate PagesAdded(m0: Mem, done: seq<(Page, Leaf)>, next: Page, panic: bool)
      reads this
    {
      match panic
      case false => Valid() && Added(m0, mem, root, done)
      case true => Valid() && Added(m0, mem, root, done) && Lookup(mem, root, next).Some?
    }

    /** One 4 KiB pte_map added to the pages mapped since m0; it panics exactly when the page is mapped. */
    method MapPage(ghost m0: Mem, ghost done: seq<(Page, Leaf)>, v: nat, p: Word, flags: Word) returns (panic: bool)
      requires Valid() && Added(m0, mem, root, done) && LeafFlags(flags) && |pool| >= 2
      modifies this`mem, this`pool
      ensures |pool| >= |old(pool)| - 2 && (panic ==> pool == old(pool)) && Owned() == old(Owned())
      ensures panic <==> Lookup(old(mem), root, PageOf(v)).Some?
      ensures !panic ==> PagesAdded(m0, done + [(PageOf(v), Leaf(0, Align4K(p), flags))], PageOf(v), false)
      ensures panic ==> PagesAdded(m0, done, PageOf(v), true)
    {
      hide WF, NoStrays, MapMem, Lookup, TakenCount, LeafEntry, Added, IsLeaf, LeafFlags, Frames, PageOf, PageOk;
      VaIsPage(v);
      LeafEntryIsLeaf(p, flags);
      MapOne(m0, mem, root, done, PageOf(v), LeafEntry(p, flags), pool);
      panic := PteMap(v, p, flags, PTE_PAGE_4K);
    }
  }

  lemma VaIsPage(v: nat)
    ensures PageOk(PageOf(v))
  {}

  /** One 4 KiB mapping: it succeeds exactly on an unmapped page, which is then added. */
  lemma MapOne(m0: Mem, m: Mem, r: Word, done: seq<(Page, Leaf)>, pg: Page, leaf: Word, pool: seq<Word>)
    requires WF(m, r) && PoolOk(pool, m) && |pool| >= 2 && PageOk(pg) && IsLeaf(leaf) && Added(m0, m, r, done)
    ensures FreshPair(m, pool[0], pool[1])
    ensures MapMem(m, r, pg, leaf, PTE_PAGE_4K, pool[0], pool[1]).None? <==> Lookup(m, r, pg).Some?
    ensures var t := MapMem(m, r, pg, leaf, PTE_PAGE_4K, pool[0], pool[1]);
            t.Some? ==> Added(m0, t.value, r, done + [(pg, Leaf(0, ExtractNaddr(leaf), ExtractFlags(leaf)))])
                        && t.value.Keys + Frames(pool[TakenCount(m, r, pg, PTE_PAGE_4K)..]) == m.Keys + Frames(pool)
  {
    hide WF, Lookup, Added, TakenCount, Map4KMem, Frames;
    Panics4K(m, r, pg, leaf, pool[0], pool[1]);
    if Lookup(m, r, pg).None? {
      MapAdds(m0, m, r, done, pg, leaf, pool[0], pool[1]);
      MapConserves(m, r, pg, leaf, PTE_PAGE_4K, pool);
    }
  }

  /** m is m0 with the listed pages, unmapped in m0, mapped to the listed leaves. */
  ghost predicate Added(m0: Mem, m: Mem, r: Word, done: seq<(Page, Leaf)>) {
    && (forall k :: 0 <= k < |done| ==>
              PageOk(done[k].0) && Lookup(m, r, done[k].0) == Some(done[k].1) && Lookup(m0, r, done[k].0) == None)
    && (forall q :: PageOk(q) && (forall k :: 0 <= k < |done| ==> done[k].0 != q) ==>
        Lookup(m, r, q) == Lookup(m0, r, q))
  }

  lemma MapAdds(m0: Mem, m: Mem, r: Word, done: seq<(Page, Leaf)>, pg: Page, leaf: Word, a: Word, b: Word)
    requires WF(m, r) && FreshPair(m, a, b) && PageOk(pg) && IsLeaf(leaf) && Added(m0, m, r, done)
    requires MapMem(m, r, pg, leaf, PTE_PAGE_4K, a, b).Some?
    ensures Added(m0, MapMem(m, r, pg, leaf, PTE_PAGE_4K, a, b).value, r,
                  done + [(pg, Leaf(0, ExtractNaddr(leaf), ExtractFlags(leaf)))])
  {
    var m' := MapMem(m, r, pg, leaf, PTE_PAGE_4K, a, b).value;
    var l := Leaf(0, ExtractNaddr(leaf), ExtractFlags(leaf));
    Kinds(leaf);
    Panics4K(m, r, pg, leaf, a, b);
    forall q | PageOk(q) ensures Lookup(m', r, q) == if q == pg then Some(l) else Lookup(m, r, q) {
      MapRefines(m, r, pg, leaf, PTE_PAGE_4K, a, b, q);
    }
    AddOne(m0, m, m', r, done, pg, l);
  }

  lemma AddOne(m0: Mem, m: Mem, m': Mem, r: Word, done: seq<(Page, Leaf)>, pg: Page, l: Leaf)
    requires Added(m0, m, r, done) && PageOk(pg) && Lookup(m, r, pg) == None
    requires forall q :: PageOk(q) ==> Lookup(m', r, q) == if q == pg then Some(l) else Lookup(m, r, q)
    ensures Added(m0, m', r, done + [(pg, l)])
  {
    var done' := done + [(pg, l)];
    assert forall k :: 0 <= k < |done| ==> done'[k] == done[k];
    assert done'[|done|] == (pg, l);
  }

  /** freed holds the addresses of the nodes, no node twice. */
  ghost predicate Collected(m: Mem, r: Word, nodes: seq<Node>, freed: seq<Word>) {
    && |nodes| == |freed|
    && (forall i :: 0 <= i < |nodes| ==> Has(m, r, nodes[i]) && freed[i] == Addr(m, r, nodes[i]))
    && (forall i, j :: 0 <= i < j < |nodes| ==> nodes[i] != nodes[j])
  }

  /** Nodes the destroy loops have passed when at entries i and j. */
  ghost predicate Before(n: Node, i: nat, j: nat) {
    match n
    case Root => false
    case L1(k) => k < i
    case L0(k, l) => k < i || (k == i && l < j)
  }

  lemma AllCollected(m: Mem, r: Word, nodes: seq<Node>, freed: seq<Word>)
    requires TreeOk(m, r) && Collected(m, r, nodes, freed)
    requires forall n :: n in nodes <==> Has(m, r, n)
    ensures Frames(freed) == m.Keys
    ensures forall i, j :: 0 <= i < j < |freed| ==> freed[i] != freed[j]
  {
    forall f | f in m ensures f in Frames(freed) {
      var n :| Has(m, r, n) && Addr(m, r, n) == f.addr;
      var i :| 0 <= i < |nodes| && nodes[i] == n;
      assert freed[i] == f.addr;
    }
    forall f | f in Frames(freed) ensures f in m {
      var i :| 0 <= i < |freed| && f == Frame(freed[i]);
      assert InPlace(m, r, nodes[i]);
    }
  }

  /** The entry where a walk ends is zero or a leaf with V set. */
  lemma WalkEnd(m: Mem, r: Word, pg: Page)
    requires WF(m, r) && PageOk(pg)
    ensures var e := LastEntry(m, r, pg);
            && (e == 0 || IsLeaf(e)) && (IsInvalid(e) <==> e == 0)
            && (IsLeaf(e) ==> ExtractFlags(e) & 1 == 1)
            && ExtractNaddr(0) == 0 && ExtractFlags(0) == 0
  {
    UnmapIs(m, r, pg);
    LastNodeHas(m, r, pg);
    var n := LastNode(m, r, pg);
    assert EntryOk(Level(n), Ent(m, Addr(m, r, n), IndexAt(n, pg)));
    Kinds(LastEntry(m, r, pg));
    Kinds(0);
    LeafHasV(LastEntry(m, r, pg));
  }

  lemma LeafHasV(e: Word)
    ensures IsLeaf(e) ==> ExtractFlags(e) & 1 == 1
  {}

  /** How many pages a mapping takes. */
  function TakenCount(m: Mem, r: Word, pg: Page, size: int): (n: nat)
    ensures n <= 2
  {
    if size == PTE_PAGE_4K && IsTable(Ent(m, r, pg.i2)) then
      if IsTable(Ent(m, ExtractNaddr(Ent(m, r, pg.i2)), pg.i1)) then 0 else 1
    else if size == PTE_PAGE_4K then 2
    else if size == PTE_PAGE_2M && !IsTable(Ent(m, r, pg.i2)) then 1
    else 0
  }

  lemma PoolAfterMap(m: Mem, r: Word, pg: Page, size: int, pool: seq<Word>, m': Mem)
    requires |pool| >= 2 && PoolOk(pool, m)
    requires m'.Keys == m.Keys + TakenBy(m, r, pg, size, pool[0], pool[1])
    ensures PoolOk(pool[TakenCount(m, r, pg, size)..], m')
    ensures TakenBy(m, r, pg, size, pool[0], pool[1]) == Frames(pool[..TakenCount(m, r, pg, size)])
  {
    var n := TakenCount(m, r, pg, size);
    var rest := pool[n..];
    forall i | 0 <= i < |rest| ensures Align4K(rest[i]) == rest[i] && Frame(rest[i]) !in m' {
      assert rest[i] == pool[n + i];
    }
    assert Frames(pool[..n])
           == if n == 0 then {} else if n == 1 then {Frame(pool[0])} else {Frame(pool[0]), Frame(pool[1])};
  }

  /** What pte_map adds to the tree it takes from the pool. */
  lemma MapConserves(m: Mem, r: Word, pg: Page, leaf: Word, size: int, pool: seq<Word>)
    requires WF(m, r) && PoolOk(pool, m) && |pool| >= 2 && FreshPair(m, pool[0], pool[1]) && PageOk(pg) && IsLeaf(leaf)
    requires MapMem(m, r, pg, leaf, size, pool[0], pool[1]).Some?
    ensures var m', rest := MapMem(m, r, pg, leaf, size, pool[0], pool[1]).value, pool[TakenCount(m, r, pg, size)..];
            PoolOk(rest, m') && m'.Keys + Frames(rest) == m.Keys + Frames(pool)
  {
    hide TakenBy, WF, Lookup, TakenCount, MapMem;
    MapRefines(m, r, pg, leaf, size, pool[0], pool[1], pg);
    PoolAfterMap(m, r, pg, size, pool, MapMem(m, r, pg, leaf, size, pool[0], pool[1]).value);
    FramesSplit(pool, TakenCount(m, r, pg, size));
  }

  lemma FillOrder(m: Mem, r: Word, n: Node, k: nat, a: Word, j: nat, leaf: Word)
    requires Sized(m, Addr(m, r, n)) && k < ENTRIES && j < ENTRIES && Frame(a) !in m
    ensures Sized(Link(m, r, n, k, a), a)
    ensures Store(Store(Fresh(m, a), a, j, leaf), Addr(m, r, n), k, TableEntry(a))
            == Store(Link(m, r, n, k, a), a, j, leaf)
  {}

  lemma LinkOrder(m: Mem, r: Word, pg: Page, a: Word, b: Word)
    requires WF(m, r) && FreshPair(m, a, b) && PageOk(pg) && IsInvalid(Ent(m, r, pg.i2))
    requires Linkable(m, r, Root, pg.i2, a)
    ensures var m1 := Link(m, r, Root, pg.i2, a);
            && Addr(m1, r, L1(pg.i2)) == a && Sized(m1, a)
            && Store(Store(Fresh(Fresh(m, a), b), r, pg.i2, TableEntry(a)), a, pg.i1, TableEntry(b))
               == Link(m1, r, L1(pg.i2), pg.i1, b)
  {
    LinkTwice(m, r, pg, a, b);
    var m1 := Link(m, r, Root, pg.i2, a);
    assert Store(Fresh(Fresh(m, a), b), r, pg.i2, TableEntry(a)) == Fresh(m1, b);
  }

  lemma FreshRoot(m: Mem, r: Word)
    requires m == map[Frame(r) := EmptyTable()] && Align4K(r) == r
    ensures TreeOk(m, r)
    ensures forall q :: PageOk(q) ==> Lookup(m, r, q) == None
  {
    Kinds(0);
    forall n ensures Has(m, r, n) <==> n == Root {}
    assert InPlace(m, r, Root);
  }
}
