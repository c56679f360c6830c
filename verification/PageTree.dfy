/** The three-level tree of kernel/pte.c as a value: the 512-entry tables reachable from one root,
    by physical address, and the finite map from pages to leaves that they stand for. */
module PageTree {
  import opened Collections
  import opened PageEntry

  type Table = seq<Word>
  /** A page of physical memory, by address. */
  datatype Frame = Frame(addr: Word)

  type Mem = map<Frame, Table>

  const ENTRIES: nat := 512

  // a page from pmem_alloc after memset
  function EmptyTable(): (t: Table)
    ensures |t| == ENTRIES && forall i :: 0 <= i < ENTRIES ==> t[i] == 0
  {
    seq(ENTRIES, (_: int) => 0 as Word)
  }

  /** A table of eight-byte entries fills a page. */
  lemma TableFillsPage()
    ensures 8 * |EmptyTable()| == 0x1000
  {}

  /** Entry i of the table at a. */
  function Ent(m: Mem, a: Word, i: nat): Word {
    if Frame(a) in m && i < |m[Frame(a)]| then m[Frame(a)][i] else 0
  }

  /** The table at a is in memory, with its 512 entries. */
  predicate Sized(m: Mem, a: Word) {
    Frame(a) in m && |m[Frame(a)]| == ENTRIES
  }

  function Store(m: Mem, a: Word, i: nat, v: Word): Mem
    requires Sized(m, a) && i < ENTRIES
  {
    m[Frame(a) := m[Frame(a)][i := v]]
  }

  function Fresh(m: Mem, a: Word): Mem {
    m[Frame(a) := EmptyTable()]
  }

  // ----- tables of the tree

  /** The root, the level-1 table under root entry i2, the level-0 table under entry i1 of that. */
  datatype Node = Root | L1(i2: nat) | L0(i2: nat, i1: nat)

  function Level(n: Node): nat {
    match n case Root => 2 case L1(_) => 1 case L0(_, _) => 0
  }

  function Addr(m: Mem, r: Word, n: Node): Word {
    match n
    case Root => r
    case L1(i) => ExtractNaddr(Ent(m, r, i))
    case L0(i, j) => ExtractNaddr(Ent(m, ExtractNaddr(Ent(m, r, i)), j))
  }

  predicate Has(m: Mem, r: Word, n: Node) {
    match n
    case Root => true
    case L1(i) => i < ENTRIES && IsTable(Ent(m, r, i))
    case L0(i, j) => i < ENTRIES && IsTable(Ent(m, r, i))
                     && j < ENTRIES && IsTable(Ent(m, ExtractNaddr(Ent(m, r, i)), j))
  }

  function Child(n: Node, k: nat): Node
    requires Level(n) > 0
  {
    match n case Root => L1(k) case L1(i) => L0(i, k)
  }

  predicate EntryOk(level: nat, e: Word) {
    e == 0 || IsLeaf(e) || (level > 0 && IsTable(e))
  }

  ghost predicate InPlace(m: Mem, r: Word, n: Node) {
    Sized(m, Addr(m, r, n)) && Align4K(Addr(m, r, n)) == Addr(m, r, n)
  }

  /** Well-formed: every table of the tree is in memory, tables are pairwise distinct pages,
      and every entry is empty, a leaf, or (above level 0) a table. */
  ghost predicate WF(m: Mem, r: Word) {
    && (forall n :: Has(m, r, n) ==> InPlace(m, r, n))
    && (forall n, o :: Has(m, r, n) && Has(m, r, o) && Addr(m, r, n) == Addr(m, r, o) ==> n == o)
    && (forall n, k: nat :: Has(m, r, n) && k < ENTRIES ==> EntryOk(Level(n), Ent(m, Addr(m, r, n), k)))
  }

  /** Every page of m is a table of the tree. */
  ghost predicate NoStrays(m: Mem, r: Word) {
    forall f :: f in m ==> exists n :: Has(m, r, n) && Addr(m, r, n) == f.addr
  }

  // ----- the map the tree stands for

  datatype Page = Page(i2: nat, i1: nat, i0: nat)

  function PageOf(va: nat): Page {
    Page(Vpn2(va), Vpn1(va), Vpn0(va))
  }

  /** Addresses in one page. */
  lemma SamePage(a: nat, b: nat)
    requires a / 0x1000 == b / 0x1000
    ensures PageOf(a) == PageOf(b)
  {
    DivShift(a, a / 0x1000, 0x1000);
    DivShift(b, b / 0x1000, 0x1000);
  }

  /** A translation: size 0, 1, 2 for 4 KiB, 2 MiB, 1 GiB (PTE_PAGE_4K, _2M, _1G). */
  datatype Leaf = Leaf(size: nat, base: Word, flags: Word)

  /** The table where a walk for pg ends. */
  function LastNode(m: Mem, r: Word, pg: Page): Node {
    if !IsTable(Ent(m, r, pg.i2)) then Root
    else if !IsTable(Ent(m, ExtractNaddr(Ent(m, r, pg.i2)), pg.i1)) then L1(pg.i2)
    else L0(pg.i2, pg.i1)
  }

  function IndexAt(n: Node, pg: Page): nat {
    match n case Root => pg.i2 case L1(_) => pg.i1 case L0(_, _) => pg.i0
  }

  function LastEntry(m: Mem, r: Word, pg: Page): Word {
    Ent(m, Addr(m, r, LastNode(m, r, pg)), IndexAt(LastNode(m, r, pg), pg))
  }

  function LeafOf(level: nat, e: Word): Option<Leaf> {
    if IsInvalid(e) then None else Some(Leaf(level, ExtractNaddr(e), ExtractFlags(e)))
  }

  /** What page pg is mapped to. */
  function Lookup(m: Mem, r: Word, pg: Page): Option<Leaf> {
    LeafOf(Level(LastNode(m, r, pg)), LastEntry(m, r, pg))
  }

  /** The pages that one leaf of the given size at pg covers. */
  predicate InRegion(q: Page, pg: Page, size: nat) {
    q.i2 == pg.i2 && (size < 2 ==> q.i1 == pg.i1) && (size < 1 ==> q.i0 == pg.i0)
  }

  predicate PageOk(pg: Page) {
    pg.i2 < ENTRIES && pg.i1 < ENTRIES && pg.i0 < ENTRIES
  }

  // ----- one store

  lemma EntAfterStore(m: Mem, a: Word, i: nat, v: Word, b: Word, j: nat)
    requires Sized(m, a) && i < ENTRIES
    ensures Ent(Store(m, a, i, v), b, j) == if a == b && i == j then v else Ent(m, b, j)
  {
  }

  lemma EntAfterNew(m: Mem, a: Word, b: Word, j: nat)
    requires Frame(a) !in m
    ensures Ent(Fresh(m, a), b, j) == Ent(m, b, j)
  {}

  /** Storing something that is no table over something that is no table keeps the tree's shape. */
  lemma StoreKeepsNodes(m: Mem, r: Word, n: Node, k: nat, v: Word, o: Node)
    requires WF(m, r) && Has(m, r, n) && k < ENTRIES
    requires !IsTable(v) && !IsTable(Ent(m, Addr(m, r, n), k))
    ensures Sized(m, Addr(m, r, n))
    ensures var m' := Store(m, Addr(m, r, n), k, v);
            && (Has(m', r, o) <==> Has(m, r, o))
            && (Has(m, r, o) ==> Addr(m', r, o) == Addr(m, r, o))
  {
    assert InPlace(m, r, n);
    var a := Addr(m, r, n);
    match o
    case Root =>
    case L1(i) =>
      EntAfterStore(m, a, k, v, r, i);
    case L0(i, j) =>
      EntAfterStore(m, a, k, v, r, i);
      EntAfterStore(m, a, k, v, ExtractNaddr(Ent(m, r, i)), j);
  }

  lemma StoreKeepsWF(m: Mem, r: Word, n: Node, k: nat, v: Word)
    requires WF(m, r) && Has(m, r, n) && k < ENTRIES
    requires !IsTable(v) && EntryOk(Level(n), v) && !IsTable(Ent(m, Addr(m, r, n), k))
    ensures Sized(m, Addr(m, r, n))
    ensures WF(Store(m, Addr(m, r, n), k, v), r)
  {
    var a := Addr(m, r, n);
    assert InPlace(m, r, n);
    var m' := Store(m, a, k, v);
    forall o ensures (Has(m', r, o) <==> Has(m, r, o)) && (Has(m, r, o) ==> Addr(m', r, o) == Addr(m, r, o)) {
      StoreKeepsNodes(m, r, n, k, v, o);
    }
    forall o | Has(m', r, o) ensures InPlace(m', r, o) { assert InPlace(m, r, o); }
    forall o, j: nat | Has(m', r, o) && j < ENTRIES ensures EntryOk(Level(o), Ent(m', Addr(m', r, o), j)) {
      EntAfterStore(m, a, k, v, Addr(m, r, o), j);
    }
  }

  lemma StoreKeepsNoStrays(m: Mem, r: Word, n: Node, k: nat, v: Word)
    requires WF(m, r) && Has(m, r, n) && k < ENTRIES && NoStrays(m, r)
    requires !IsTable(v) && !IsTable(Ent(m, Addr(m, r, n), k))
    ensures Sized(m, Addr(m, r, n)) && NoStrays(Store(m, Addr(m, r, n), k, v), r)
  {
    assert InPlace(m, r, n);
    var m' := Store(m, Addr(m, r, n), k, v);
    forall f | f in m' ensures exists o :: Has(m', r, o) && Addr(m', r, o) == f.addr {
      var o :| Has(m, r, o) && Addr(m, r, o) == f.addr;
      StoreKeepsNodes(m, r, n, k, v, o);
    }
  }

  lemma NodeSized(m: Mem, r: Word, n: Node)
    requires WF(m, r) && Has(m, r, n)
    ensures Sized(m, Addr(m, r, n))
  {
    assert InPlace(m, r, n);
  }

  lemma NodesApart(m: Mem, r: Word, n: Node, o: Node)
    requires WF(m, r) && Has(m, r, n) && Has(m, r, o)
    ensures Addr(m, r, n) == Addr(m, r, o) <==> n == o
  {}

  /** Such a store changes the translations of exactly the pages that end in that entry. */
  lemma StoreLookup(m: Mem, r: Word, n: Node, k: nat, v: Word, q: Page)
    requires WF(m, r) && Has(m, r, n) && k < ENTRIES && PageOk(q)
    requires !IsTable(v) && !IsTable(Ent(m, Addr(m, r, n), k))
    ensures Sized(m, Addr(m, r, n))
    ensures Lookup(Store(m, Addr(m, r, n), k, v), r, q)
            == if LastNode(m, r, q) == n && IndexAt(n, q) == k then LeafOf(Level(n), v) else Lookup(m, r, q)
  {
    hide IsTable, IsInvalid, ExtractNaddr, ExtractFlags, WF, Addr, Store, Sized, LeafOf;
    var a := Addr(m, r, n);
    NodeSized(m, r, n);
    var m' := Store(m, a, k, v);
    StoreKeepsNodes(m, r, n, k, v, L1(q.i2));
    StoreKeepsNodes(m, r, n, k, v, L0(q.i2, q.i1));
    var last := LastNode(m, r, q);
    LastNodeHas(m, r, q);
    LastNodeHas(m', r, q);
    assert LastNode(m', r, q) == last;
    StoreKeepsNodes(m, r, n, k, v, last);
    NodesApart(m, r, n, last);
    EntAfterStore(m, a, k, v, Addr(m, r, last), IndexAt(last, q));
  }

  lemma LastNodeHas(m: Mem, r: Word, q: Page)
    requires PageOk(q)
    ensures Has(m, r, LastNode(m, r, q)) && IndexAt(LastNode(m, r, q), q) < ENTRIES
    ensures LastNode(m, r, q)
            == if !Has(m, r, L1(q.i2)) then Root else if !Has(m, r, L0(q.i2, q.i1)) then L1(q.i2) else L0(q.i2, q.i1)
  {}

  // ----- linking a fresh table

  /** The tree after a fresh zeroed page a is linked under the empty entry k of table n. */
  function Link(m: Mem, r: Word, n: Node, k: nat, a: Word): Mem
    requires Sized(m, Addr(m, r, n)) && k < ENTRIES
  {
    Store(Fresh(m, a), Addr(m, r, n), k, TableEntry(a))
  }

  ghost predicate Linkable(m: Mem, r: Word, n: Node, k: nat, a: Word) {
    && WF(m, r) && Has(m, r, n) && k < ENTRIES && Level(n) > 0
    && Frame(a) !in m && Align4K(a) == a && Ent(m, Addr(m, r, n), k) == 0
    && Sized(m, Addr(m, r, n))
  }

  lemma LinkNodesL1(m: Mem, r: Word, n: Node, k: nat, a: Word, i: nat)
    requires Linkable(m, r, n, k, a)
    ensures var m' := Link(m, r, n, k, a);
            && (Has(m', r, L1(i)) <==> Has(m, r, L1(i)) || L1(i) == Child(n, k))
            && (Has(m, r, L1(i)) ==> Addr(m', r, L1(i)) == Addr(m, r, L1(i)) && L1(i) != Child(n, k))
            && (L1(i) == Child(n, k) ==> Addr(m', r, L1(i)) == a)
  {
    TableEntryIsTable(a);
    Kinds(0);
    L1Distinct(m, r, n, i);
    LinkEnt(m, r, n, k, a, r, i);
  }

  lemma LinkNodesL0(m: Mem, r: Word, n: Node, k: nat, a: Word, i: nat, j: nat)
    requires Linkable(m, r, n, k, a)
    ensures var m' := Link(m, r, n, k, a);
            && (Has(m', r, L0(i, j)) <==> Has(m, r, L0(i, j)) || L0(i, j) == Child(n, k))
            && (Has(m, r, L0(i, j)) ==> Addr(m', r, L0(i, j)) == Addr(m, r, L0(i, j)) && L0(i, j) != Child(n, k))
            && (L0(i, j) == Child(n, k) ==> Addr(m', r, L0(i, j)) == a)
  {
    TableEntryIsTable(a);
    Kinds(0);
    L1Distinct(m, r, n, i);
    LinkNodesL1(m, r, n, k, a, i);
    var m' := Link(m, r, n, k, a);
    LinkEnt(m, r, n, k, a, Addr(m', r, L1(i)), j);
  }

  lemma LinkNodes(m: Mem, r: Word, n: Node, k: nat, a: Word, o: Node)
    requires Linkable(m, r, n, k, a)
    ensures var m' := Link(m, r, n, k, a);
            && (Has(m', r, o) <==> Has(m, r, o) || o == Child(n, k))
            && (Has(m, r, o) ==> Addr(m', r, o) == Addr(m, r, o) && o != Child(n, k))
            && Addr(m', r, Child(n, k)) == a
  {
    match n {
      case Root => LinkNodesL1(m, r, n, k, a, k);
      case L1(i) => LinkNodesL0(m, r, n, k, a, i, k);
    }
    match o {
      case Root =>
      case L1(i) => LinkNodesL1(m, r, n, k, a, i);
      case L0(i, j) => LinkNodesL0(m, r, n, k, a, i, j);
    }
  }

  /** Entry i of the root is an entry of table n only if n is the root. */
  lemma L1Distinct(m: Mem, r: Word, n: Node, i: nat)
    requires WF(m, r) && Has(m, r, n)
    ensures Addr(m, r, n) == r ==> n == Root
    ensures Has(m, r, L1(i)) && Addr(m, r, n) == Addr(m, r, L1(i)) ==> n == L1(i)
  {
    assert Has(m, r, Root) && Addr(m, r, Root) == r;
  }

  lemma LinkEnt(m: Mem, r: Word, n: Node, k: nat, a: Word, c: Word, j: nat)
    requires Sized(m, Addr(m, r, n)) && k < ENTRIES && Frame(a) !in m
    ensures Ent(Link(m, r, n, k, a), c, j)
            == if c == Addr(m, r, n) && j == k then TableEntry(a) else Ent(m, c, j)
  {
    EntAfterNew(m, a, c, j);
    EntAfterStore(Fresh(m, a), Addr(m, r, n), k, TableEntry(a), c, j);
  }

  lemma LinkSizes(m: Mem, r: Word, n: Node, k: nat, a: Word, c: Word)
    requires Sized(m, Addr(m, r, n)) && k < ENTRIES && Frame(a) !in m
    requires c == a || Sized(m, c)
    ensures Sized(Link(m, r, n, k, a), c)
  {}

  lemma LinkKeepsWF(m: Mem, r: Word, n: Node, k: nat, a: Word)
    requires Linkable(m, r, n, k, a)
    ensures WF(Link(m, r, n, k, a), r)
  {
    assert InPlace(m, r, n);
    var m', c := Link(m, r, n, k, a), Child(n, k);
    TableEntryIsTable(a);
    forall o ensures (Has(m', r, o) <==> Has(m, r, o) || o == c)
                     && (Has(m, r, o) ==> Addr(m', r, o) == Addr(m, r, o) && o != c)
                     && Addr(m', r, c) == a {
      LinkNodes(m, r, n, k, a, o);
    }
    forall o | Has(m', r, o) ensures InPlace(m', r, o) {
      if o != c { assert InPlace(m, r, o); }
      LinkSizes(m, r, n, k, a, Addr(m', r, o));
    }
    forall o, j: nat | Has(m', r, o) && j < ENTRIES ensures EntryOk(Level(o), Ent(m', Addr(m', r, o), j)) {
      LinkEnt(m, r, n, k, a, Addr(m', r, o), j);
      if o != c {
        assert InPlace(m, r, o);
        assert EntryOk(Level(o), Ent(m, Addr(m, r, o), j));
      }
    }
    forall o, p | Has(m', r, o) && Has(m', r, p) && Addr(m', r, o) == Addr(m', r, p) ensures o == p {
      if o != c { assert InPlace(m, r, o); }
      if p != c { assert InPlace(m, r, p); }
    }
  }

  lemma LinkKeepsNoStrays(m: Mem, r: Word, n: Node, k: nat, a: Word)
    requires Linkable(m, r, n, k, a) && NoStrays(m, r)
    ensures NoStrays(Link(m, r, n, k, a), r)
  {
    var m' := Link(m, r, n, k, a);
    forall f | f in m' ensures exists o :: Has(m', r, o) && Addr(m', r, o) == f.addr {
      if f == Frame(a) {
        LinkNodes(m, r, n, k, a, Child(n, k));
      } else {
        var o :| Has(m, r, o) && Addr(m, r, o) == f.addr;
        LinkNodes(m, r, n, k, a, o);
      }
    }
  }

  /** Linking an empty table changes no translation. */
  lemma LinkLookup(m: Mem, r: Word, n: Node, k: nat, a: Word, q: Page)
    requires Linkable(m, r, n, k, a) && PageOk(q)
    ensures Lookup(Link(m, r, n, k, a), r, q) == Lookup(m, r, q)
  {
    hide Link, LastNode, ExtractNaddr, IsTable;
    assert InPlace(m, r, n);
    var m' := Link(m, r, n, k, a);
    LinkNodes(m, r, n, k, a, L1(q.i2));
    LinkNodes(m, r, n, k, a, L0(q.i2, q.i1));
    LinkNodes(m, r, n, k, a, LastNode(m, r, q));
    LastNodeHas(m, r, q);
    LastNodeHas(m', r, q);
    Kinds(0);
    var last := LastNode(m, r, q);
    LinkEnt(m, r, n, k, a, Addr(m, r, last), IndexAt(last, q));
    if LastNode(m', r, q) != last {
      assert LastNode(m', r, q) == Child(n, k) && last == n && IndexAt(n, q) == k;
      LinkEnt(m, r, n, k, a, a, IndexAt(Child(n, k), q));
    } else {
      assert InPlace(m, r, last);
      if last == n { assert IndexAt(n, q) != k; }
    }
  }
}
