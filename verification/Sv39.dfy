/** The address translation of section 4.3.2 of the RISC-V privileged specification, with the Sv39
    parameters of section 4.4, run over the tables that kernel/pte.c builds. Permission checks and the
    A and D bits are not part of it. */
module Sv39 {
  import opened Collections
  import opened PageEntry
  import opened PageTree
  import opened PageMap
  import opened PageTable
  import opened PageRuns

  /** The physical address is frame + offset; frame is aligned to the size of the page. */
  datatype Translation = Fault | Maps(frame: Word, offset: nat, level: nat)

  // va.vpn[i]
  function VpnAt(va: nat, i: nat): nat {
    va / PageBytes(i) % 512
  }

  /** The offset bits within a page of level i. */
  function OffsetMask(i: nat): Word {
    if i == 0 then 0xfff else if i == 1 then 0x1f_ffff else 0x3fff_ffff
  }

  // step 6: some of pte.ppn[i-1:0] is not zero
  predicate Misaligned(pte: Word, i: nat) {
    if i == 0 then false
    else if i == 1 then (pte >> 10) & 0x1ff != 0
    else (pte >> 10) & 0x3_ffff != 0
  }

  // step 8: the page number above the offset comes from the entry
  function FrameOf(pte: Word, i: nat): Word {
    PpnAddress(pte) & !OffsetMask(i)
  }

  // A, D and U, which are reserved in an entry that points to a table
  const TABLE_RESERVED: Word := 0xd0

  // step 3: not valid, writable but not readable, or a reserved bit
  predicate BadEntry(pte: Word) {
    || pte & 1 == 0 || (pte & 2 == 0 && pte & 4 != 0) || pte >> 54 != 0
    || (pte & 0xe == 0 && pte & TABLE_RESERVED != 0)
  }

  // step 4: neither readable nor executable
  predicate IsPointer(pte: Word) {
    !BadEntry(pte) && pte & 2 == 0 && pte & 8 == 0
  }

  /** Where the walk stops at level i. */
  function HwStop(pte: Word, va: nat, i: nat): Translation {
    if BadEntry(pte) || IsPointer(pte) || Misaligned(pte, i) then Fault else Maps(FrameOf(pte, i), va % PageBytes(i), i)
  }

  const VA_END: nat := 0x1_0000_0000_0000_0000 // 64-bit virtual addresses

  /** Bits 63 to 39 all equal bit 38 (section 4.4.1): bits 63 to 38 are all clear or all set. */
  predicate Canonical(va: nat)
    requires va < VA_END
  {
    va / 0x40_0000_0000 == 0 || va / 0x40_0000_0000 == 0x3ff_ffff
  }

  /** Steps 2 to 8 from level i, with the table at a. */
  function HwWalk(m: Mem, a: Word, va: nat, i: nat): Translation
    decreases i
  {
    var pte := Ent(m, a, VpnAt(va, i));
    if IsPointer(pte) && i > 0 then HwWalk(m, PpnAddress(pte), va, i - 1) else HwStop(pte, va, i)
  }

  /** The whole translation of a 64-bit address, with the root table at r. */
  function HwTranslate(m: Mem, r: Word, va: nat): Translation
    requires va < VA_END
  {
    if Canonical(va) then HwWalk(m, r, va, 2) else Fault
  }

  /** The bits above the 44-bit page number are clear, and those reserved in an entry for a table. */
  predicate Clear(e: Word) {
    e >> 54 == 0 && (IsTable(e) ==> e & TABLE_RESERVED == 0)
  }

  /** Every address mapped or linked has 56 bits, and no entry for a table sets A, D or U. */
  ghost predicate Physical(m: Mem) {
    forall a, i :: Clear(Ent(m, a, i))
  }

  predicate WriteOnly(flags: Word) {
    flags & 2 == 0 && flags & 4 != 0
  }

  /** The base is not aligned to the size of the page. */
  predicate Unaligned(base: Word, size: nat) {
    base & OffsetMask(size) != 0
  }

  /** What the hardware makes of a leaf the kernel installed. */
  function HwLeaf(size: nat, base: Word, flags: Word, va: nat): Translation {
    if WriteOnly(flags) || Unaligned(base, size) then Fault
    else Maps(base, va % PageBytes(size), size)
  }

  /** What the hardware would make of the leaf that pte_walk finds for the address. */
  function OfLeaf(l: Option<Leaf>, va: nat): Translation {
    match l
    case None => Fault
    case Some(leaf) => HwLeaf(leaf.size, leaf.base, leaf.flags, va)
  }

  /** On a canonical address the hardware finds the leaf of pte_walk: it faults exactly where the page is
      unmapped, or its leaf is writable but not readable, or a superpage base is not aligned to its size. On
      every other address it faults. */
  lemma HardwareAgrees(m: Mem, r: Word, va: nat)
    requires WF(m, r) && Physical(m) && va < VA_END
    ensures HwTranslate(m, r, va) == if Canonical(va) then OfLeaf(Lookup(m, r, PageOf(va)), va) else Fault
  {
    WalkAgrees(m, r, va);
  }

  /** pte_walk does not look at bits 63 to 39: it is right about the hardware exactly on canonical addresses and
      those whose translation would fault anyhow. */
  lemma WalkRightIff(m: Mem, r: Word, va: nat)
    requires WF(m, r) && Physical(m) && va < VA_END
    ensures HwTranslate(m, r, va) == OfLeaf(Lookup(m, r, PageOf(va)), va)
            <==> Canonical(va) || OfLeaf(Lookup(m, r, PageOf(va)), va) == Fault
  {
    WalkAgrees(m, r, va);
  }

  /** An address on which they differ: bit 39 is set and bit 38 is not. pte_walk finds the leaf of page 0. */
  lemma HighBitsIgnored(m: Mem, r: Word)
    requires WF(m, r) && Physical(m) && OfLeaf(Lookup(m, r, PageOf(0)), 0).Maps?
    ensures var va := 0x80_0000_0000;
            PageOf(va) == PageOf(0) && HwTranslate(m, r, va) == Fault && OfLeaf(Lookup(m, r, PageOf(va)), va).Maps?
  {
    hide Physical, HwWalk, WF, Lookup;
    HardwareAgrees(m, r, 0x80_0000_0000);
  }

  lemma {:induction false} WalkAgrees(m: Mem, r: Word, va: nat)
    requires WF(m, r) && Physical(m)
    ensures HwWalk(m, r, va, 2) == OfLeaf(Lookup(m, r, PageOf(va)), va)
  {
    var pg := PageOf(va);
    TreeFacts(m, r, pg);
    LastNodeHas(m, r, pg);
    UnmapIs(m, r, pg);
    var e2 := Ent(m, r, pg.i2);
    if IsTable(e2) {
      TableStep(m, r, va, 2);
      var a1 := ExtractNaddr(e2);
      var e1 := Ent(m, a1, pg.i1);
      if IsTable(e1) {
        TableStep(m, a1, va, 1);
        LastStep(m, r, va, ExtractNaddr(e1), 0);
      } else {
        LastStep(m, r, va, a1, 1);
      }
    } else {
      LastStep(m, r, va, r, 2);
    }
  }

  lemma TableStep(m: Mem, a: Word, va: nat, i: nat)
    requires 0 < i <= 2 && Physical(m) && IsTable(Ent(m, a, VpnAt(va, i)))
    ensures HwWalk(m, a, va, i) == HwWalk(m, ExtractNaddr(Ent(m, a, VpnAt(va, i))), va, i - 1)
  {
    var e := Ent(m, a, VpnAt(va, i));
    TableBits(e);
  }

  lemma TableBits(e: Word)
    requires IsTable(e) && Clear(e)
    ensures IsPointer(e)
    ensures PpnAddress(e) == ExtractNaddr(e)
  {}

  lemma {:induction false} LastStep(m: Mem, r: Word, va: nat, a: Word, i: nat)
    requires WF(m, r) && Physical(m) && i <= 2
    requires Level(LastNode(m, r, PageOf(va))) == i && Addr(m, r, LastNode(m, r, PageOf(va))) == a
    ensures HwWalk(m, a, va, i) == OfLeaf(Lookup(m, r, PageOf(va)), va)
  {
    var pg := PageOf(va);
    var n := LastNode(m, r, pg);
    LastNodeHas(m, r, pg);
    UnmapIs(m, r, pg);
    var e := Ent(m, a, VpnAt(va, i));
    assert VpnAt(va, i) == IndexAt(n, pg);
    assert e == LastEntry(m, r, pg) && EntryOk(Level(n), e);
    StopAgrees(e, va, i);
  }

  /** One entry, empty or a leaf, as both sides read it. */
  lemma StopAgrees(e: Word, va: nat, i: nat)
    requires (e == 0 || IsLeaf(e)) && e >> 54 == 0 && i <= 2
    ensures !IsPointer(e)
    ensures HwStop(e, va, i) == OfLeaf(LeafOf(i, e), va)
  {
    hide IsPointer, BadEntry, Misaligned, FrameOf, HwLeaf, IsLeaf, IsTable, IsInvalid, ExtractNaddr, ExtractFlags;
    if e == 0 {
      ZeroStops();
      Kinds(0);
    } else {
      LeafBits(e);
      Kinds(e);
      if i == 0 { StopAgrees0(e, va); } else if i == 1 { StopAgrees1(e, va); } else { StopAgrees2(e, va); }
    }
  }

  lemma StopAgrees0(e: Word, va: nat)
    requires IsLeaf(e) && e >> 54 == 0
    ensures HwStop(e, va, 0) == HwLeaf(0, ExtractNaddr(e), ExtractFlags(e), va)
  {
    hide *;
    LeafBits(e);
    Aligned0(e);
    Stop(e, va, 0);
  }

  lemma StopAgrees1(e: Word, va: nat)
    requires IsLeaf(e) && e >> 54 == 0
    ensures HwStop(e, va, 1) == HwLeaf(1, ExtractNaddr(e), ExtractFlags(e), va)
  {
    hide *;
    LeafBits(e);
    Aligned1(e);
    Stop(e, va, 1);
  }

  lemma StopAgrees2(e: Word, va: nat)
    requires IsLeaf(e) && e >> 54 == 0
    ensures HwStop(e, va, 2) == HwLeaf(2, ExtractNaddr(e), ExtractFlags(e), va)
  {
    hide *;
    LeafBits(e);
    Aligned2(e);
    Stop(e, va, 2);
  }

  lemma Stop(e: Word, va: nat, i: nat)
    requires BadEntry(e) <==> WriteOnly(ExtractFlags(e))
    requires !IsPointer(e) && (Misaligned(e, i) <==> Unaligned(ExtractNaddr(e), i))
    requires !Misaligned(e, i) ==> FrameOf(e, i) == ExtractNaddr(e)
    ensures HwStop(e, va, i) == HwLeaf(i, ExtractNaddr(e), ExtractFlags(e), va)
  {
    hide BadEntry, IsPointer, Misaligned, FrameOf, ExtractNaddr, ExtractFlags, WriteOnly, Unaligned;
  }

  lemma ZeroStops()
    ensures BadEntry(0) && !IsPointer(0)
  {}

  lemma LeafBits(e: Word)
    requires IsLeaf(e) && e >> 54 == 0
    ensures BadEntry(e) <==> WriteOnly(ExtractFlags(e))
    ensures !IsPointer(e)
  {}

  lemma Aligned0(e: Word)
    requires e >> 54 == 0
    ensures !Misaligned(e, 0) && !Unaligned(ExtractNaddr(e), 0)
    ensures FrameOf(e, 0) == ExtractNaddr(e)
  {
    hide FrameOf, ExtractNaddr;
    PageAligned(e);
    SameFrame(e);
  }

  lemma PageAligned(e: Word)
    ensures ExtractNaddr(e) & 0xfff == 0
  {}

  /** The base of a leaf is the address of a page. */
  lemma LeafAligned(m: Mem, r: Word, pg: Page)
    requires Lookup(m, r, pg).Some?
    ensures !Unaligned(Lookup(m, r, pg).value.base, 0)
  {
    hide LastNode, LastEntry, ExtractNaddr, IsInvalid, ExtractFlags;
    PageAligned(LastEntry(m, r, pg));
  }

  lemma SameFrame(e: Word)
    requires e >> 54 == 0
    ensures FrameOf(e, 0) == ExtractNaddr(e)
  {}

  lemma Aligned1(e: Word)
    requires e >> 54 == 0
    ensures Misaligned(e, 1) <==> Unaligned(ExtractNaddr(e), 1)
    ensures !Misaligned(e, 1) ==> FrameOf(e, 1) == ExtractNaddr(e)
  {}

  lemma Aligned2(e: Word)
    requires e >> 54 == 0
    ensures Misaligned(e, 2) <==> Unaligned(ExtractNaddr(e), 2)
    ensures !Misaligned(e, 2) ==> FrameOf(e, 2) == ExtractNaddr(e)
  {}

  // ----- 56-bit addresses stay 56-bit

  lemma StorePhysical(m: Mem, a: Word, i: nat, v: Word)
    requires Sized(m, a) && i < ENTRIES && Physical(m) && Clear(v)
    ensures Physical(Store(m, a, i, v))
  {
    forall b, j ensures Clear(Ent(Store(m, a, i, v), b, j)) {
      if j >= 0 { EntAfterStore(m, a, i, v, b, j); }
    }
  }

  lemma LinkPhysical(m: Mem, r: Word, n: Node, k: nat, a: Word)
    requires Linkable(m, r, n, k, a) && Physical(m) && a >> 56 == 0
    ensures Physical(Link(m, r, n, k, a))
  {
    TableClear(a);
    forall b, j ensures Clear(Ent(Link(m, r, n, k, a), b, j)) {
      LinkEnt(m, r, n, k, a, b, j);
    }
  }

  lemma TableClear(addr: Word)
    requires addr >> 56 == 0
    ensures Clear(TableEntry(addr)) && Clear(0)
  {}

  lemma LeafClear(leaf: Word)
    requires IsLeaf(leaf) && leaf >> 54 == 0
    ensures Clear(leaf)
  {
    Kinds(leaf);
  }

  /** Mapping a 56-bit address through tables at 56-bit addresses keeps the hardware's view in step. */
  lemma MapPhysical(m: Mem, r: Word, pg: Page, leaf: Word, size: int, a: Word, b: Word)
    requires WF(m, r) && FreshPair(m, a, b) && PageOk(pg) && Physical(m)
    requires IsLeaf(leaf) && leaf >> 54 == 0 && a >> 56 == 0 && b >> 56 == 0
    requires MapMem(m, r, pg, leaf, size, a, b).Some?
    ensures Physical(MapMem(m, r, pg, leaf, size, a, b).value)
  {
    LeafClear(leaf);
    TreeFacts(m, r, pg);
    if size == PTE_PAGE_4K {
      if Has(m, r, L0(pg.i2, pg.i1)) {
        StorePhysical(m, Addr(m, r, L0(pg.i2, pg.i1)), pg.i0, leaf);
      } else if Has(m, r, L1(pg.i2)) {
        InvalidIsZero(m, r, L1(pg.i2), pg.i1);
        LinkPhysical(m, r, L1(pg.i2), pg.i1, a);
        LinkSizes(m, r, L1(pg.i2), pg.i1, a, a);
        StorePhysical(Link(m, r, L1(pg.i2), pg.i1, a), a, pg.i0, leaf);
      } else {
        LinkTwice(m, r, pg, a, b);
        LinkPhysical(m, r, Root, pg.i2, a);
        var m1 := Link(m, r, Root, pg.i2, a);
        LinkPhysical(m1, r, L1(pg.i2), pg.i1, b);
        StorePhysical(Link(m1, r, L1(pg.i2), pg.i1, b), b, pg.i0, leaf);
      }
    } else if size == PTE_PAGE_2M && !Has(m, r, L1(pg.i2)) {
      InvalidIsZero(m, r, Root, pg.i2);
      LinkPhysical(m, r, Root, pg.i2, a);
      LinkSizes(m, r, Root, pg.i2, a, a);
      StorePhysical(Link(m, r, Root, pg.i2, a), a, pg.i1, leaf);
    } else if size == PTE_PAGE_2M {
      StorePhysical(m, Addr(m, r, L1(pg.i2)), pg.i1, leaf);
    } else {
      StorePhysical(m, r, pg.i2, leaf);
    }
  }

  lemma UnmapPhysical(m: Mem, r: Word, pg: Page)
    requires WF(m, r) && PageOk(pg) && Physical(m) && Present(m, r, pg) && UnmapMem(m, r, pg).Some?
    ensures Physical(UnmapMem(m, r, pg).value)
  {
    UnmapIs(m, r, pg);
    var n := LastNode(m, r, pg);
    StorePhysical(m, Addr(m, r, n), IndexAt(n, pg), 0);
  }

  // ----- whole runs

  /** What the operation maps is at a 56-bit address. */
  predicate OpPhysical(op: Op) {
    op.Map? ==> op.leaf >> 54 == 0
  }

  ghost predicate PagesOk(pages: seq<Word>) {
    pages != [] && PoolOk(pages, map[]) && forall i :: 0 <= i < |pages| ==> pages[i] >> 56 == 0
  }

  /** The rest of the pool is a tail of the pages. */
  ghost predicate PoolTail(pages: seq<Word>, pool: seq<Word>) {
    |pool| <= |pages| && pool == pages[|pages| - |pool|..]
  }

  lemma {:induction false} RunPhysical(pages: seq<Word>, ops: seq<Op>)
    requires PagesOk(pages) && (forall i :: 0 <= i < |ops| ==> OpOk(ops[i]) && OpPhysical(ops[i]))
             && After(pages, ops).Some?
    ensures Physical(After(pages, ops).value.mem) && PoolTail(pages, After(pages, ops).value.pool)
    decreases |ops|
  {
    if ops == [] {
      CreatedPhysical(pages[0]);
    } else {
      var op, s := ops[|ops| - 1], After(pages, ops[..|ops| - 1]).value;
      RunPhysical(pages, ops[..|ops| - 1]);
      StepPhysical(pages, s, op);
    }
  }

  lemma CreatedPhysical(r: Word)
    ensures Physical(map[Frame(r) := EmptyTable()])
  {}

  lemma StepPhysical(pages: seq<Word>, s: State, op: Op)
    requires PagesOk(pages) && Good(s, pages[0]) && OpOk(op) && OpPhysical(op) && Physical(s.mem)
             && PoolTail(pages, s.pool)
    requires Step(s, pages[0], op).Some?
    ensures Physical(Step(s, pages[0], op).value.mem) && PoolTail(pages, Step(s, pages[0], op).value.pool)
  {
    TreeFacts(s.mem, pages[0], op.pg);
    match op
    case Map(pg, leaf, size) =>
      FirstTwoFresh(s, pages[0]);
      MapPhysical(s.mem, pages[0], pg, leaf, size, s.pool[0], s.pool[1]);
    case Unmap(pg) =>
      UnmapPhysical(s.mem, pages[0], pg);
  }

  /** After any successful run the hardware translates as the map that the operations build says. */
  lemma {:induction false} RunAgrees(pages: seq<Word>, ops: seq<Op>, va: nat)
    requires PagesOk(pages) && (forall i :: 0 <= i < |ops| ==> OpOk(ops[i]) && OpPhysical(ops[i]))
             && After(pages, ops).Some?
    requires va < VA_END
    ensures HwTranslate(After(pages, ops).value.mem, pages[0], va)
            == if Canonical(va) then OfLeaf(Mapped(ops, PageOf(va)), va) else Fault
  {
    RunPhysical(pages, ops);
    RunRefinesMap(pages, ops, PageOf(va));
    HardwareAgrees(After(pages, ops).value.mem, pages[0], va);
  }
}
