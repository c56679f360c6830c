/** Whole runs of pte_map and pte_unmap on one root. */
module PageRuns {
  import opened Collections
  import opened PageEntry
  import opened PageTree
  import opened PageMap
  import opened PageTable

  /** A pte_map of the given leaf entry, or a pte_unmap. */
  datatype Op = Map(pg: Page, leaf: Word, size: int) | Unmap(pg: Page)

  datatype State = State(mem: Mem, pool: seq<Word>)

  predicate OpOk(op: Op) {
    PageOk(op.pg) && (op.Map? ==> IsLeaf(op.leaf))
  }

  ghost predicate Good(s: State, r: Word) {
    TreeOk(s.mem, r) && PoolOk(s.pool, s.mem)
  }

  lemma FirstTwoFresh(s: State, r: Word)
    requires Good(s, r) && |s.pool| >= 2
    ensures FreshPair(s.mem, s.pool[0], s.pool[1])
  {}

  /** None: a panic, or the page pool runs out. */
  ghost function Step(s: State, r: Word, op: Op): Option<State>
    requires Good(s, r) && OpOk(op)
  {
    TreeFacts(s.mem, r, op.pg);
    match op
    case Map(pg, leaf, size) =>
      if |s.pool| < 2 then None
      else
        (FirstTwoFresh(s, r);
         match MapMem(s.mem, r, pg, leaf, size, s.pool[0], s.pool[1])
         case None => None
         case Some(m) => Some(State(m, s.pool[TakenCount(s.mem, r, pg, size)..])))
    case Unmap(pg) =>
      match UnmapMem(s.mem, r, pg)
      case None => None
      case Some(m) => Some(State(m, s.pool))
  }

  lemma StepKeeps(s: State, r: Word, op: Op)
    requires Good(s, r) && OpOk(op) && Step(s, r, op).Some?
    ensures var t := Step(s, r, op).value;
            Good(t, r) && t.mem.Keys + Frames(t.pool) == s.mem.Keys + Frames(s.pool)
  {
    if op.Map? { MapStepKeeps(s, r, op); } else { UnmapStepKeeps(s, r, op); }
  }

  lemma MapStepKeeps(s: State, r: Word, op: Op)
    requires Good(s, r) && OpOk(op) && op.Map? && Step(s, r, op).Some?
    ensures var t := Step(s, r, op).value;
            Good(t, r) && t.mem.Keys + Frames(t.pool) == s.mem.Keys + Frames(s.pool)
  {
    hide WF, NoStrays, Lookup, TakenCount, MapMem;
    TreeFacts(s.mem, r, op.pg);
    var a, b, k := s.pool[0], s.pool[1], TakenCount(s.mem, r, op.pg, op.size);
    FirstTwoFresh(s, r);
    MapRefines(s.mem, r, op.pg, op.leaf, op.size, a, b, op.pg);
    MapKeepsNoStrays(s.mem, r, op.pg, op.leaf, op.size, a, b);
    MapConserves(s.mem, r, op.pg, op.leaf, op.size, s.pool);
    assert Step(s, r, op) == Some(State(MapMem(s.mem, r, op.pg, op.leaf, op.size, a, b).value, s.pool[k..]));
  }

  lemma UnmapStepKeeps(s: State, r: Word, op: Op)
    requires Good(s, r) && OpOk(op) && op.Unmap? && Step(s, r, op).Some?
    ensures var t := Step(s, r, op).value;
            Good(t, r) && t.mem.Keys + Frames(t.pool) == s.mem.Keys + Frames(s.pool)
  {
    TreeFacts(s.mem, r, op.pg);
    UnmapRefines(s.mem, r, op.pg, op.pg);
    UnmapKeepsNoStrays(s.mem, r, op.pg);
  }

  /** The state after pte_create and the operations, all of them successful. */
  ghost function After(pages: seq<Word>, ops: seq<Op>): (s: Option<State>)
    requires pages != [] && PoolOk(pages, map[]) && forall i :: 0 <= i < |ops| ==> OpOk(ops[i])
    ensures s.Some? ==> Good(s.value, pages[0]) && s.value.mem.Keys + Frames(s.value.pool) == Frames(pages)
    decreases |ops|
  {
    if ops == [] then
      Created(pages);
      Some(State(map[Frame(pages[0]) := EmptyTable()], pages[1..]))
    else
      match After(pages, ops[..|ops| - 1])
      case None => None
      case Some(s) =>
        var t := Step(s, pages[0], ops[|ops| - 1]);
        if t.Some? then
          StepKeeps(s, pages[0], ops[|ops| - 1]);
          t
        else None
  }

  lemma Created(pages: seq<Word>)
    requires pages != [] && PoolOk(pages, map[])
    ensures var m: Mem := map[Frame(pages[0]) := EmptyTable()];
            && Good(State(m, pages[1..]), pages[0])
            && m.Keys + Frames(pages[1..]) == Frames(pages)
            && forall q :: PageOk(q) ==> Lookup(m, pages[0], q) == None
  {
    var m: Mem := map[Frame(pages[0]) := EmptyTable()];
    FreshRoot(m, pages[0]);
    FramesSplit(pages, 1);
    assert Frames(pages[..1]) == {Frame(pages[0])};
    forall i | 0 <= i < |pages[1..]| ensures Align4K(pages[1..][i]) == pages[1..][i] && Frame(pages[1..][i]) !in m {
      assert pages[1..][i] == pages[i + 1];
    }
  }

  /** Table-page ownership: after any successful run the tree holds exactly the pages taken from the
      allocator since pte_create, the others being still in the pool. With PteDestroy, which gives back
      the pages of the tree once each, every page taken comes back exactly once. */
  lemma {:induction false} TreeHoldsPagesTaken(pages: seq<Word>, ops: seq<Op>)
    requires pages != [] && PoolOk(pages, map[]) && forall i :: 0 <= i < |ops| ==> OpOk(ops[i])
    requires After(pages, ops).Some?
    ensures var s := After(pages, ops).value;
            s.mem.Keys == Frames(pages) - Frames(s.pool) && s.mem.Keys !! Frames(s.pool)
  {
    var s := After(pages, ops).value;
    forall f | f in Frames(s.pool) ensures f !in s.mem {
      var i :| 0 <= i < |s.pool| && f == Frame(s.pool[i]);
    }
  }

  // ----- the finite map

  /** What page q is mapped to after the operations, computed on the map alone. */
  ghost function Mapped(ops: seq<Op>, q: Page): Option<Leaf>
    decreases |ops|
  {
    if ops == [] then None
    else
      var before := ops[..|ops| - 1];
      match ops[|ops| - 1]
      case Map(pg, leaf, size) =>
        if size >= 0 && InRegion(q, pg, size) then LeafOf(size, leaf) else Mapped(before, q)
      case Unmap(pg) =>
        match Mapped(before, pg)
        case None => Mapped(before, q)
        case Some(l) => if InRegion(q, pg, l.size) then None else Mapped(before, q)
  }

  /** Refinement over whole runs: the tree always stands for the map that the operations build. */
  lemma {:induction false} RunRefinesMap(pages: seq<Word>, ops: seq<Op>, q: Page)
    requires pages != [] && PoolOk(pages, map[]) && (forall i :: 0 <= i < |ops| ==> OpOk(ops[i])) && PageOk(q)
    requires After(pages, ops).Some?
    ensures Lookup(After(pages, ops).value.mem, pages[0], q) == Mapped(ops, q)
    decreases |ops|
  {
    var r := pages[0];
    if ops == [] {
      Created(pages);
    } else {
      var before, op := ops[..|ops| - 1], ops[|ops| - 1];
      var s := After(pages, before).value;
      RunRefinesMap(pages, before, q);
      RunRefinesMap(pages, before, op.pg);
      TreeFacts(s.mem, r, op.pg);
      match op
      case Map(pg, leaf, size) =>
        MapRefines(s.mem, r, pg, leaf, size, s.pool[0], s.pool[1], q);
      case Unmap(pg) =>
        UnmapRefines(s.mem, r, pg, q);
    }
  }

  /** Address a is in the leaf of the given size at base. */
  predicate Covers(base: Word, size: nat, a: Word) {
    base as nat <= a as nat < base as nat + PageBytes(size)
  }

  /** No page at an address in the leaf is among the frames. */
  ghost predicate Avoids(base: Word, size: nat, frames: set<Frame>) {
    forall a: Word :: Covers(base, size, a) ==> Frame(a) !in frames
  }

  /** What the operation maps holds no page of the allocator. */
  ghost predicate OpAvoids(op: Op, frames: set<Frame>) {
    op.Map? && op.size >= 0 ==> Avoids(ExtractNaddr(op.leaf), op.size, frames)
  }

  /** No page anywhere in a mapped leaf, whatever its size, is a table, provided no operation mapped a leaf with
      a page of the allocator in it. */
  lemma {:induction false} MappedPagesAreNotTables(pages: seq<Word>, ops: seq<Op>, q: Page)
    requires pages != [] && PoolOk(pages, map[]) && (forall i :: 0 <= i < |ops| ==> OpOk(ops[i])) && PageOk(q)
    requires forall i :: 0 <= i < |ops| ==> OpAvoids(ops[i], Frames(pages))
    requires After(pages, ops).Some?
    ensures var s := After(pages, ops).value;
            match Lookup(s.mem, pages[0], q)
            case None => true
            case Some(l) => Avoids(l.base, l.size, s.mem.Keys)
  {
    hide Covers;
    RunRefinesMap(pages, ops, q);
    MappedFrom(ops, q);
    assert After(pages, ops).value.mem.Keys <= Frames(pages);
  }

  /** Every leaf in the map came from one of the operations. */
  lemma {:induction false} MappedFrom(ops: seq<Op>, q: Page)
    ensures Mapped(ops, q).Some? ==> exists i :: 0 <= i < |ops| && Makes(ops[i], Mapped(ops, q).value)
    decreases |ops|
  {
    if Mapped(ops, q).Some? {
      var before, op := ops[..|ops| - 1], ops[|ops| - 1];
      if Makes(op, Mapped(ops, q).value) {
        assert Makes(ops[|ops| - 1], Mapped(ops, q).value);
      } else {
        MappedFrom(before, q);
        var i :| 0 <= i < |before| && Makes(before[i], Mapped(before, q).value);
        assert ops[i] == before[i];
      }
    }
  }

  predicate Makes(op: Op, l: Leaf) {
    op.Map? && op.size >= 0 && l.size == op.size && l.base == ExtractNaddr(op.leaf)
  }
}
