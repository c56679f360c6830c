/** kernel/kmem.c over the buddy allocator: nine object caches, whose child slabs move between three lists.
    The child slabs are those of module Slab; their specification is the set of objects handed out. */
module Kmem {
  import opened Defs
  import opened Readings
  import opened Collections
  import opened Bits
  import opened BuddyBlocks
  import opened BuddyLists
  import opened BuddyRuns
  import opened Buddy
  import opened Recency
  import Slab

  const SIZES: seq<nat> := [8, 16, 32, 64, 128, 256, 512, 1024, 2048] // KMEM_CACHE_SIZE_LIST
  const ORDER: nat := 1 // KMEM_CACHE_CSLAB_ORDER
  const BLOCK: nat := 8192

  /** A child slab: the cache it belongs to and the objects handed out. Its identity is its first page. */
  datatype SlabRec = SlabRec(cache: nat, live: set<nat>)

  datatype Kind = FullSlab | PartialSlab | FreeSlab

  /** slab_full, slab_partial and slab_free of one cache */
  datatype Lists = Lists(full: seq<nat>, partial: seq<nat>, free: seq<nat>)

  function Of(l: Lists, k: Kind): seq<nat> {
    match k case FullSlab => l.full case PartialSlab => l.partial case FreeSlab => l.free
  }

  function With(l: Lists, k: Kind, s: seq<nat>): Lists {
    match k case FullSlab => l.(full := s) case PartialSlab => l.(partial := s) case FreeSlab => l.(free := s)
  }

  /** Objects of a slab of cache c. */
  function TotalOf(c: nat): (t: nat)
    requires c < 9
    ensures 4 <= t <= 1024 && t * SIZES[c] == BLOCK && t == Slab.Total(BLOCK, SIZES[c])
  {
    BLOCK / SIZES[c]
  }

  // by the counters: slab_full, slab_empty
  function KindOf(rec: SlabRec): Kind
    requires rec.cache < 9
  {
    if |rec.live| == TotalOf(rec.cache) then FullSlab else if rec.live == {} then FreeSlab else PartialSlab
  }

  ghost predicate RecOk(rec: SlabRec) {
    rec.cache < 9 && forall k :: k in rec.live ==> k < TotalOf(rec.cache)
  }

  ghost predicate Is(slabs: map<nat, SlabRec>, i: nat, c: nat, k: Kind) {
    i in slabs && RecOk(slabs[i]) && slabs[i].cache == c && KindOf(slabs[i]) == k
  }

  /** The list holds exactly the slabs of cache c of that kind, each once. */
  ghost predicate SlabListOk(s: seq<nat>, slabs: map<nat, SlabRec>, c: nat, k: Kind) {
    Distinct(s) && forall i: nat :: i in s <==> Is(slabs, i, c, k)
  }

  ghost predicate CacheOk(l: Lists, slabs: map<nat, SlabRec>, c: nat) {
    && SlabListOk(l.full, slabs, c, FullSlab) && SlabListOk(l.partial, slabs, c, PartialSlab)
       && SlabListOk(l.free, slabs, c, FreeSlab)
  }

  ghost predicate AllOk(lists: seq<Lists>, slabs: map<nat, SlabRec>) {
    && |lists| == 9
    && (forall i :: i in slabs ==> RecOk(slabs[i]))
    && (forall c: nat :: c < 9 ==> CacheOk(lists[c], slabs, c))
  }

  lemma ListSame(s: seq<nat>, slabs: map<nat, SlabRec>, slabs': map<nat, SlabRec>, c: nat, k: Kind)
    requires SlabListOk(s, slabs, c, k) && forall j: nat :: Is(slabs', j, c, k) <==> Is(slabs, j, c, k)
    ensures SlabListOk(s, slabs', c, k)
  {}

  lemma ListAdd(s: seq<nat>, slabs: map<nat, SlabRec>, slabs': map<nat, SlabRec>, c: nat, k: Kind, i: nat)
    requires SlabListOk(s, slabs, c, k) && !Is(slabs, i, c, k)
    requires forall j: nat :: Is(slabs', j, c, k) <==> Is(slabs, j, c, k) || j == i
    ensures SlabListOk([i] + s, slabs', c, k)
  {
    assert i !in s;
  }

  lemma {:induction false} ListRemove(s: seq<nat>, slabs: map<nat, SlabRec>, slabs': map<nat, SlabRec>, c: nat,
                                      k: Kind, i: nat)
    requires SlabListOk(s, slabs, c, k) && forall j: nat :: Is(slabs', j, c, k) <==> Is(slabs, j, c, k) && j != i
    ensures SlabListOk(Without(s, i), slabs', c, k)
  {
    WithoutFacts(s, i);
  }

  /** The lists of cache c after slab i changed from kind `from` to kind `to`; None: it is new, or gone. */
  function Moved(l: Lists, i: nat, from: Option<Kind>, to: Option<Kind>): Lists {
    if from == to then l
    else
      var m := if from.Some? then With(l, from.value, Without(Of(l, from.value), i)) else l;
      if to.Some? then With(m, to.value, [i] + Of(m, to.value)) else m
  }

  predicate SameBut(slabs: map<nat, SlabRec>, slabs': map<nat, SlabRec>, i: nat) {
    && (forall j :: j in slabs' && j != i ==> j in slabs && slabs[j] == slabs'[j])
    && (forall j :: j in slabs && j != i ==> j in slabs')
  }

  ghost predicate KindAt(slabs: map<nat, SlabRec>, i: nat, c: nat, k: Option<Kind>) {
    if k.Some? then Is(slabs, i, c, k.value) else i !in slabs
  }

  lemma MovedList(l: Lists, slabs: map<nat, SlabRec>, slabs': map<nat, SlabRec>, c: nat, i: nat, from: Option<Kind>,
                  to: Option<Kind>, k: Kind)
    requires CacheOk(l, slabs, c) && KindAt(slabs, i, c, from) && KindAt(slabs', i, c, to)
    requires SameBut(slabs, slabs', i)
    ensures SlabListOk(Of(Moved(l, i, from, to), k), slabs', c, k)
  {
    if from == to || (from != Some(k) && to != Some(k)) {
      ListSame(Of(l, k), slabs, slabs', c, k);
    } else if from == Some(k) {
      ListRemove(Of(l, k), slabs, slabs', c, k, i);
    } else {
      ListAdd(Of(l, k), slabs, slabs', c, k, i);
    }
  }

  /** Moving a slab to the list of its new kind keeps every list right. */
  lemma MovedKeeps(lists: seq<Lists>, slabs: map<nat, SlabRec>, slabs': map<nat, SlabRec>, c: nat, i: nat,
                   from: Option<Kind>, to: Option<Kind>)
    requires AllOk(lists, slabs) && c < 9 && KindAt(slabs, i, c, from) && KindAt(slabs', i, c, to)
    requires SameBut(slabs, slabs', i)
    ensures AllOk(lists[c := Moved(lists[c], i, from, to)], slabs')
  {
    hide Moved, SlabListOk, KindOf;
    assert CacheOk(lists[c], slabs, c);
    MovedList(lists[c], slabs, slabs', c, i, from, to, FullSlab);
    MovedList(lists[c], slabs, slabs', c, i, from, to, PartialSlab);
    MovedList(lists[c], slabs, slabs', c, i, from, to, FreeSlab);
    forall d: nat | d < 9 && d != c ensures CacheOk(lists[d], slabs', d) {
      assert CacheOk(lists[d], slabs, d);
      OtherCache(lists[d], slabs, slabs', d, c, i, from, to);
    }
  }

  lemma OtherCache(l: Lists, slabs: map<nat, SlabRec>, slabs': map<nat, SlabRec>, d: nat, c: nat, i: nat,
                   from: Option<Kind>, to: Option<Kind>)
    requires CacheOk(l, slabs, d) && KindAt(slabs, i, c, from) && KindAt(slabs', i, c, to) && d != c
    requires SameBut(slabs, slabs', i)
    ensures CacheOk(l, slabs', d)
  {
    ListSame(l.full, slabs, slabs', d, FullSlab);
    ListSame(l.partial, slabs, slabs', d, PartialSlab);
    ListSame(l.free, slabs, slabs', d, FreeSlab);
  }

  // ----- pages

  lemma OrderTwoPages()
    ensures Pow2(ORDER) == 2
  {}

  /** Every slab is a live block of the buddy allocator, and both its pages name its cache. */
  ghost predicate Backed(live: set<Block>, adats: seq<int>, slabs: map<nat, SlabRec>) {
    forall i :: i in slabs ==> PagesOf(live, adats, i, slabs[i].cache)
  }

  ghost predicate PagesOf(live: set<Block>, adats: seq<int>, i: nat, c: nat) {
    Block(i, ORDER) in live && i + 1 < |adats| && adats[i] == c && adats[i + 1] == c
  }

  /** The blocks of the slabs. */
  ghost function Blocks(slabs: map<nat, SlabRec>): set<Block> {
    set i | i in slabs :: Block(i, ORDER)
  }

  /** Live blocks of the buddy allocator meet in no page. */
  lemma LiveBlocksApart(s: State, total: nat, i: nat, j: nat)
    requires Inv(s, total) && Block(i, ORDER) in s.live && Block(j, ORDER) in s.live && i != j
    ensures i + 2 <= j || j + 2 <= i
  {
    OrderTwoPages();
    assert Block(i, ORDER) in s.free + s.live && Block(j, ORDER) in s.free + s.live;
    assert Disjoint(Block(i, ORDER), Block(j, ORDER));
  }

  // pmem_alloc
  method PmemAlloc(b: BuddySystem, pow: nat, r: Reading) returns (pa: Option<nat>, ghost index: nat)
    requires b.Valid() && pow < MAX_BLOCK_POW
    modifies b, b.indices, b.buddies
    ensures b.Valid()
    ensures pa.None? <==> Exhausted(old(b.FreeBlocks()), pow)
    ensures pa.None? ==> b.live == old(b.live)
    ensures if pa.Some? then Step(old(b.Abs()), Alloc(pow), r) == Some(b.Abs()) else b.Abs() == old(b.Abs())
    ensures pa.Some? ==> pa.value == b.Address(index) && Block(index, pow) !in old(b.live)
                         && b.live == old(b.live) + {Block(index, pow)} && index + Pow2(pow) <= b.totalPages
  {
    ghost var s := b.Abs();
    hide Linked, Flagged, Sound, Coalesced, Weight, Split, OfOrder;
    if r.AsWritten? {
      pa := b.BuddyAlloc(pow);
    } else {
      pa := b.BuddyAllocIntended(pow);
    }
    index := 0;
    if pa.Some? {
      index := Source(s.free, pow).start;
      TakenIsNew(s, pow, b.totalPages);
    }
  }

  lemma TakenIsNew(s: State, pow: nat, total: nat)
    requires Inv(s, total) && pow < MAX_BLOCK_POW && !Exhausted(s.free, pow)
    ensures var b := Block(Source(s.free, pow).start, pow);
            b !in s.live && End(b) <= total
  {
    hide Weight, Coalesced, Split, FreeAfterAlloc, Leak;
    TakenPlace(s, pow, Intended, total);
    NotLive(s, Source(s.free, pow), Block(Source(s.free, pow).start, pow), Managed(total));
  }

  /** No live block starts where a free one does. */
  lemma NotLive(s: State, h: Block, b: Block, n: nat)
    requires Sound(s.free + s.live, n) && s.free !! s.live && h in s.free && b.start == h.start
    ensures b !in s.live
  {
    assert h in s.free + s.live;
    HoldsStart(h);
    HoldsStart(b);
    forall c | c in s.live ensures Disjoint(c, h) { assert c in s.free + s.live; }
  }

  // pmem_free of a live block
  method PmemFree(b: BuddySystem, pa: nat, ghost block: Block)
    requires b.Valid() && block in b.live && pa == b.Address(block.start)
    modifies b, b.indices, b.buddies
    ensures b.Valid() && b.live == old(b.live) - {block}
  {
    b.AddressRoundTrip(block.start);
    LiveRecord(b.Abs(), b.buddies[..], block, b.totalPages);
    FreeStepIs(b.Abs(), block, b.totalPages);
    hide Linked, Flagged, Sound, Coalesced, Weight, Coalesce;
    var r := b.BuddyFree(pa);
    assert r.Freed?;
  }

  /** The record of a live block's first page tells its order. */
  lemma LiveRecord(s: State, pages: seq<PageInfo>, b: Block, total: nat)
    requires Inv(s, total) && b in s.live && Flagged(pages, s.live) && |pages| == total
    ensures b.start < total && pages[b.start].pow == b.ord && End(b) <= total && Aligned(b.start, b.ord)
    ensures Covers(s.live, b.start)
  {
    ManagedBound(total);
    assert b in s.free + s.live;
    HoldsStart(b);
  }

  // ----- the caches

  /** Address of object k of the slab at page i. */
  function ObjAddr(start: nat, i: nat, size: nat, k: nat): nat {
    Slab.Slot(start + i * PAGE_SIZE, size, k)
  }

  ghost predicate IsObject(slabs: map<nat, SlabRec>, start: nat, c: nat, i: nat, k: nat, addr: nat) {
    c < 9 && i in slabs && slabs[i].cache == c && k in slabs[i].live && addr == ObjAddr(start, i, SIZES[c], k)
  }

  lemma LiveBound(live: set<nat>, n: nat)
    requires forall k :: k in live ==> k < n
    ensures |live| <= n
  {
    assert live <= Below(n);
    SubsetSize(live, Below(n));
  }

  /** Object: its address. Fault: as written, buddy_alloc read past its lists. */
  datatype Outcome = Object(addr: nat) | NoMemory | Fault

  /** The child slab at page i has handed out the objects of rec. */
  ghost predicate ChildIs(s: Slab.Slab, start: nat, i: nat, rec: SlabRec)
    reads s, s.words
  {
    && rec.cache < 9 && s.sizeObj > 0 && s.Valid() && s.Live() == rec.live
    && s.pg == start + i * PAGE_SIZE && s.sizeObj == SIZES[rec.cache] && s.block == BLOCK
  }

  predicate NotSame(s: Slab.Slab, t: Slab.Slab) {
    s != t && s.words != t.words
  }

  /** The counters of a child slab tell its kind. */
  lemma KindIs(s: Slab.Slab, start: nat, i: nat, rec: SlabRec)
    requires ChildIs(s, start, i, rec)
    ensures KindOf(rec) == if s.Full() then FullSlab else if s.Empty() then FreeSlab else PartialSlab
  {
    s.Counters();
  }

  // slab_alloc of a slab that is not full
  method SlabAlloc(s: Slab.Slab, start: nat, ghost i: nat, ghost rec: SlabRec)
    returns (addr: nat, ghost k: nat, ghost taken: SlabRec)
    requires ChildIs(s, start, i, rec) && RecOk(rec) && KindOf(rec) != FullSlab
    modifies s
    ensures k < TotalOf(rec.cache) && k !in rec.live && forall j: nat :: j < k ==> j in rec.live
    ensures addr == ObjAddr(start, i, SIZES[rec.cache], k) && taken == SlabRec(rec.cache, rec.live + {k})
    ensures ChildIs(s, start, i, taken) && RecOk(taken)
    ensures KindOf(taken) == if s.Full() then FullSlab else PartialSlab
  {
    KindIs(s, start, i, rec);
    hide KindOf, Slab.Slab.Valid;
    addr := s.Alloc();
    k :| k < s.totalObj && k !in rec.live && (forall j: nat :: j < k ==> j in rec.live)
         && addr == Slab.Slot(s.pg, s.sizeObj, k) && s.Live() == rec.live + {k};
    taken := SlabRec(rec.cache, rec.live + {k});
    SomeObject(taken, k);
    KindIs(s, start, i, taken);
  }

  lemma SomeObject(rec: SlabRec, k: nat)
    requires rec.cache < 9 && k in rec.live
    ensures KindOf(rec) != FreeSlab
  {}

  lemma NoSlabs(lists: seq<Lists>, live: set<Block>, adats: seq<int>)
    requires |lists| == 9 && forall c :: 0 <= c < 9 ==> lists[c] == Lists([], [], [])
    ensures AllOk(lists, map[]) && Backed(live, adats, map[])
  {}

  /** No word of an object that was live and still is changes. */
  twostate predicate WordsKept(s: Slab.Slab)
    reads s, s.words
  {
    s.sizeObj > 0 ==>
      forall w: nat :: w < s.words.Length && s.Owned(w) && old(s.Owned(w)) ==> s.words[w] == old(s.words[w])
  }

  twostate predicate SameWords(a: array<nat>)
    reads a
  {
    a[..] == old(a[..])
  }

  class KmemChain {
    const buddy: BuddySystem
    const reading: Reading
    ghost const records: nat // of pslab, free or in use
    var lists: seq<Lists> // slab_full, slab_partial and slab_free of each cache of cache_list
    var child: map<nat, Slab.Slab> // the slab_t records of child slabs, by first page
    var room: nat // free objects of pslab, which holds those records
    ghost var slabs: map<nat, SlabRec>
    ghost var parts: set<object> // the child slabs and the memory of their blocks

    ghost predicate Valid()
      reads this, buddy, buddy.indices, buddy.buddies, buddy.adats, parts
    {
      Core() && Clear() && Mirror(slabs) && Counted()
    }

    ghost predicate Clear()
      reads this`parts
    {
      forall o :: o in parts ==> Foreign(o)
    }

    predicate Foreign(o: object) {
      o != this && o != buddy && o != buddy.indices && o != buddy.buddies && o != buddy.adats
    }

    /** Every child slab is as recorded, in memory of its own. */
    ghost predicate Mirror(recs: map<nat, SlabRec>)
      reads this`child, this`parts, parts
    {
      && child.Keys == recs.Keys
      && (forall i :: i in child ==> child[i] in parts && child[i].words in parts)
      && (forall i :: i in child ==> ChildIs(child[i], buddy.managedStart, i, recs[i]))
      && (forall i, j :: i in child && j in child && i != j ==> NotSame(child[i], child[j]))
    }

    ghost predicate Core()
      reads this, buddy, buddy.indices, buddy.buddies, buddy.adats
    {
      && buddy.Valid() && buddy.managedStart > 0 && buddy.managedStart % PAGE_SIZE == 0
      && buddy.adats.Length == buddy.totalPages && buddy.adats != buddy.indices
      && |lists| == 9 && AllOk(lists, slabs) && Backed(buddy.live, buddy.adats[..], slabs)
    }

    /** Every record of a slab is free or in use. */
    ghost predicate Counted()
      reads this`room, this`slabs
    {
      room + |slabs| == records
    }

    /** Live blocks of the buddy allocator that belong to others. */
    ghost function Others(): set<Block>
      reads this`slabs, buddy`live
    {
      buddy.live - Blocks(slabs)
    }

    // kmem_init, with the pages of meta_slab, kmem_cache_slab and pslab already taken
    constructor (b: BuddySystem, r: Reading, slabRecords: nat)
      requires b.Valid() && b.managedStart > 0 && b.managedStart % PAGE_SIZE == 0
      ensures Valid() && buddy == b && reading == r && slabs == map[] && room == records == slabRecords && parts == {}
    {
      hide AllOk, Backed, Linked, Flagged, Placed, Weight, Leak;
      buddy, reading, records, room := b, r, slabRecords, slabRecords;
      slabs, child, parts := map[], map[], {};
      lists := seq(9, _ => Lists([], [], []));
      NoSlabs(seq(9, _ => Lists([], [], [])), b.live, b.adats[..]);
    }

    /** What an allocation from cache c does: one more object, the lowest free one of slab i. */
    ghost predicate Added(was: map<nat, SlabRec>, c: nat, i: nat, k: nat, addr: nat)
      reads this`slabs
    {
      && c < 9 && k < TotalOf(c) && addr == ObjAddr(buddy.managedStart, i, SIZES[c], k)
      && (i in was ==> was[i].cache == c && k !in was[i].live)
      && (forall j: nat :: j < k ==> i in was && j in was[i].live)
      && slabs == was[i := SlabRec(c, (if i in was then was[i].live else {}) + {k})]
    }

    /** Cache c can serve a request: it has a slab that is not full, or can get a new one. */
    ghost predicate Serves(c: nat)
      requires c < |lists|
      reads this`lists, this`room, buddy
    {
      lists[c].partial != [] || lists[c].free != [] || (room > 0 && !Exhausted(buddy.FreeBlocks(), ORDER))
    }

    /** What the owners of live objects stored in them stays: every slab stays where it is, and no word of an object
        in it that was live and still is changes. */
    twostate predicate DataKept()
      reads this`child, this`parts, parts
    {
      forall j :: j in old(child) && old(child[j]) in parts && old(child[j].words) in parts ==>
                    j in child && child[j] == old(child[j]) && WordsKept(old(child[j]))
    }

    /** No slab moves, and no word in one changes. */
    twostate predicate MemoryKept()
      reads this`child, this`parts, parts
    {
      && old(parts) <= parts
      && (forall j :: j in old(child) ==> j in child && child[j] == old(child[j]))
      && (forall j :: j in old(child) && old(child[j].words) in parts ==> SameWords(old(child[j].words)))
    }

    // slab_alloc in slab i
    method AllocIn(c: nat, i: nat) returns (addr: nat, ghost k: nat, ghost rec: SlabRec)
      requires Valid() && c < 9 && (Is(slabs, i, c, PartialSlab) || Is(slabs, i, c, FreeSlab))
      modifies child[i]
      ensures Core() && Mirror(slabs[i := rec]) && rec == SlabRec(c, slabs[i].live + {k})
      ensures k < TotalOf(c) && k !in slabs[i].live && forall j: nat :: j < k ==> j in slabs[i].live
      ensures addr == ObjAddr(buddy.managedStart, i, SIZES[c], k)
      ensures Is(slabs[i := rec], i, c, if child[i].Full() then FullSlab else PartialSlab)
    {
      hide BuddySystem.Valid, AllOk, Backed, KindOf, RecOk, TotalOf, ObjAddr, Counted, Slab.Slab.Valid;
      assert ChildIs(child[i], buddy.managedStart, i, slabs[i]);
      rec := slabs[i];
      addr, k, rec := SlabAlloc(child[i], buddy.managedStart, i, rec);
    }

    lemma ChildPart(i: nat)
      requires Mirror(slabs) && i in slabs
      ensures i in child && child[i] in parts
    {}

    // the move of slab i to the list of its new kind
    method Record(c: nat, i: nat, from: Kind, to: Kind, ghost rec: SlabRec)
      requires Core() && Clear() && Counted() && Mirror(slabs[i := rec]) && c < 9 && Is(slabs, i, c, from)
               && Is(slabs[i := rec], i, c, to)
      modifies this`lists, this`slabs
      ensures Valid() && slabs == old(slabs)[i := rec] && Others() == old(Others())
      ensures lists == old(lists)[c := Moved(old(lists)[c], i, Some(from), Some(to))]
    {
      hide BuddySystem.Valid, CacheOk, AllOk, Moved, Backed, RecOk, KindOf, Mirror;
      MovedKeeps(lists, slabs, slabs[i := rec], c, i, Some(from), Some(to));
      SlabCount(slabs, i, rec);
      StillBacked(buddy.live, buddy.adats[..], slabs, i, rec);
      SameKeys(slabs, slabs[i := rec]);
      lists := lists[c := Moved(lists[c], i, Some(from), Some(to))];
      slabs := slabs[i := rec];
    }

    // slab_alloc of slab i, then the move to the list of its new kind (lines 46-53 and 55-65)
    method TakeFrom(c: nat, i: nat, from: Kind) returns (addr: nat, ghost k: nat)
      requires Valid() && c < 9 && Is(slabs, i, c, from) && from != FullSlab
      modifies this`lists, this`slabs, parts
      ensures Valid() && Added(old(slabs), c, i, k, addr) && Others() == old(Others())
      ensures room == old(room) && parts == old(parts) && i in slabs && MemoryKept()
      ensures slabs[i].cache == c
      ensures lists == old(lists)[c := Moved(old(lists)[c], i, Some(from), Some(KindOf(slabs[i])))]
    {
      hide Core, Mirror, ObjAddr, TotalOf, KindOf;
      ghost var rec;
      assert child[i] in parts by { ChildPart(i); }
      addr, k, rec := AllocIn(c, i);
      Record(c, i, from, if child[i].Full() then FullSlab else PartialSlab, rec);
    }

    // slab_create for cache c (kernel/slab.c:40-53): a new slab, on no list yet
    method SlabCreate(c: nat) returns (out: Outcome, i: nat)
      requires Valid() && c < 9
      modifies this`room, buddy, buddy.indices, buddy.buddies, buddy.adats
      ensures buddy.Valid()
      ensures out.Object? <==> old(room) > 0 && !Exhausted(old(buddy.FreeBlocks()), ORDER)
      ensures out.Fault? <==> old(room) > 0 && Exhausted(old(buddy.FreeBlocks()), ORDER) && reading.AsWritten?
      ensures out.Object? ==> room == old(room) - 1
      ensures out.Object? ==>
                && i !in slabs && out.addr == buddy.managedStart + i * PAGE_SIZE
                && Backed(buddy.live, buddy.adats[..], slabs[i := SlabRec(c, {})])
                && buddy.live - Blocks(slabs[i := SlabRec(c, {})]) == old(Others())
      ensures !out.Object? ==>
                Backed(buddy.live, buddy.adats[..], slabs) && Others() == old(Others()) && room == old(room)
      ensures Mirror(slabs) && MemoryKept()
    {
      hide BuddySystem.Valid, AllOk, Backed, Mirror;
      i := 0;
      if room == 0 {
        return NoMemory, i;
      }
      var pa;
      ghost var new_;
      pa, new_ := PmemAlloc(buddy, ORDER, reading);
      if pa.None? {
        return if reading.AsWritten? then Fault else NoMemory, i;
      }
      room := room - 1;
      NameOwner(c, pa.value, new_);
      i := buddy.IndexOf(pa.value);
      NewBacked(buddy.live, old(buddy.live), buddy.adats[..], old(buddy.adats[..]), slabs, i, SlabRec(c, {}));
      out := Object(pa.value);
    }

    // lines 69-80
    method FromNew(c: nat) returns (out: Outcome, ghost i: nat, ghost k: nat)
      requires Valid() && c < 9
      modifies this, buddy, buddy.indices, buddy.buddies, buddy.adats
      ensures Valid() && Others() == old(Others()) && MemoryKept()
      ensures out.Object? <==> old(room) > 0 && !Exhausted(old(buddy.FreeBlocks()), ORDER)
      ensures out.Fault? <==> old(room) > 0 && Exhausted(old(buddy.FreeBlocks()), ORDER) && reading.AsWritten?
      ensures out.Object? ==> i !in old(slabs) && i in slabs && Added(old(slabs), c, i, k, out.addr)
      ensures out.Object? ==>
                slabs[i].cache == c && lists == old(lists)[c := Moved(old(lists)[c], i, None, Some(KindOf(slabs[i])))]
      ensures !out.Object? ==> slabs == old(slabs) && lists == old(lists) && room == old(room)
      ensures fresh(parts - old(parts))
    {
      hide BuddySystem.Valid, AllOk, Moved, Backed, RecOk, KindOf, TotalOf, ObjAddr, Mirror, Exhausted, SameWords,
        Blocks;
      var page;
      out, page := SlabCreate(c);
      i, k := page, 0;
      if out.Object? {
        ChildKeys();
        NewRec(c, SlabRec(c, {0}), buddy.managedStart, page);
        SameBlocks(slabs, page, SlabRec(c, {}), SlabRec(c, {0}));
        FirstUse(c, page, out.addr);
      }
    }

    // the new slab, one object of it handed out, joins the partial list
    method FirstUse(c: nat, page: nat, addr: nat)
      requires buddy.Valid() && buddy.managedStart > 0 && buddy.managedStart % PAGE_SIZE == 0
      requires buddy.adats.Length == buddy.totalPages && buddy.adats != buddy.indices && |lists| == 9
      requires AllOk(lists, slabs) && c < 9 && page !in slabs && Mirror(slabs) && Clear()
      requires addr == buddy.managedStart + page * PAGE_SIZE && room + |slabs| + 1 == records
      requires Backed(buddy.live, buddy.adats[..], slabs[page := SlabRec(c, {})])
      modifies this`child, this`parts, this`lists, this`slabs
      ensures Valid() && slabs == old(slabs)[page := SlabRec(c, {0})] && room == old(room)
      ensures lists == old(lists)[c := Moved(old(lists)[c], page, None, Some(PartialSlab))]
      ensures old(parts) <= parts && fresh(parts - old(parts)) && child == old(child)[page := child[page]]
    {
      hide BuddySystem.Valid, AllOk, Moved, Backed, KindOf, TotalOf, ObjAddr, Mirror, ChildIs;
      var s := FirstObject(c, page, addr);
      ghost var rec := SlabRec(c, {0});
      NewRec(c, rec, buddy.managedStart, page);
      StillBacked(buddy.live, buddy.adats[..], slabs[page := SlabRec(c, {})], page, rec);
      SameBlocks(slabs, page, SlabRec(c, {}), rec);
      Adopt(page, s, rec);
      Enlist(c, page, rec);
    }

    lemma ChildKeys()
      requires Mirror(slabs)
      ensures child.Keys == slabs.Keys
    {}

    // list_add of a new slab
    method Enlist(c: nat, page: nat, ghost rec: SlabRec)
      requires buddy.Valid() && buddy.managedStart > 0 && buddy.managedStart % PAGE_SIZE == 0
      requires buddy.adats.Length == buddy.totalPages && buddy.adats != buddy.indices && |lists| == 9
      requires AllOk(lists, slabs) && c < 9 && page !in slabs && Is(slabs[page := rec], page, c, PartialSlab)
      requires Backed(buddy.live, buddy.adats[..], slabs[page := rec]) && room + |slabs| + 1 == records
      modifies this`lists, this`slabs
      ensures Core() && Counted() && slabs == old(slabs)[page := rec]
      ensures lists == old(lists)[c := Moved(old(lists)[c], page, None, Some(PartialSlab))]
    {
      hide BuddySystem.Valid, AllOk, Moved, Backed, Is;
      SlabCount(slabs, page, rec);
      MovedKeeps(lists, slabs, slabs[page := rec], c, page, None, Some(PartialSlab));
      lists := lists[c := Moved(lists[c], page, None, Some(PartialSlab))];
      slabs := slabs[page := rec];
    }

    method Adopt(i: nat, s: Slab.Slab, ghost rec: SlabRec)
      requires Mirror(slabs) && Clear() && i !in slabs && ChildIs(s, buddy.managedStart, i, rec)
      requires s !in parts && s.words !in parts && Foreign(s) && Foreign(s.words)
      modifies this`child, this`parts
      ensures Mirror(slabs[i := rec]) && Clear() && parts == old(parts) + {s, s.words} && child == old(child)[i := s]
    {
      hide ChildIs;
      child, parts := child[i := s], parts + {s, s.words};
    }

    // slab_create_ex and the first slab_alloc; no slab is full after one, so line 75 is never taken
    method FirstObject(c: nat, page: nat, addr: nat) returns (s: Slab.Slab)
      requires c < 9 && buddy.managedStart > 0 && buddy.managedStart % PAGE_SIZE == 0
      requires addr == buddy.managedStart + page * PAGE_SIZE
      ensures fresh(s) && fresh(s.words) && ChildIs(s, buddy.managedStart, page, SlabRec(c, {0}))
    {
      hide KindOf, Slab.Slab.Valid, RecOk;
      SizesPositive(c);
      EmptySlab(c);
      s := new Slab.Slab(addr, SIZES[c], BLOCK);
      ghost var none, taken: SlabRec, k := SlabRec(c, {}), SlabRec(c, {}), 0;
      var first;
      first, k, taken := SlabAlloc(s, buddy.managedStart, page, none);
      assert k > 0 ==> 0 in none.live;
    }

    lemma EmptySlab(c: nat)
      requires c < 9
      ensures RecOk(SlabRec(c, {})) && KindOf(SlabRec(c, {})) == FreeSlab
    {}

    /** The slab that serves: the first of the partial list, else the first of the free list, else a new one. */
    ghost predicate Chosen(l: Lists, was: map<nat, SlabRec>, i: nat) {
      if l.partial != [] then i == l.partial[0] else if l.free != [] then i == l.free[0] else i !in was
    }

    /** A slab of the cache that is partly free is the first of the partial list. */
    ghost predicate ServesNext(c: nat, i: nat)
      reads this`lists, this`slabs
    {
      c < |lists| && Is(slabs, i, c, PartialSlab) ==> lists[c].partial != [] && lists[c].partial[0] == i
    }

    /** list_add puts the slab first, and a slab that stays partial stays first. */
    lemma Front(was: seq<Lists>, c: nat, i: nat, from: Option<Kind>)
      requires |was| == 9 && c < 9 && i in slabs && slabs[i].cache < 9
      requires lists == was[c := Moved(was[c], i, from, Some(KindOf(slabs[i])))]
      requires from == Some(PartialSlab) ==> was[c].partial != [] && was[c].partial[0] == i
      ensures ServesNext(c, i)
    {
      hide KindOf;
    }

    /** kmem_cache_alloc: a slab in use serves before an empty one, an empty one before a new one; while it is not
        full it serves next. */
    method CacheAlloc(c: nat) returns (out: Outcome, ghost i: nat, ghost k: nat)
      requires Valid() && c < 9
      modifies this, buddy, buddy.indices, buddy.buddies, buddy.adats, parts
      ensures Valid() && Others() == old(Others()) && MemoryKept()
      ensures out.Object? <==> old(Serves(c))
      ensures out.Fault? <==> !old(Serves(c)) && old(room) > 0 && reading.AsWritten?
      ensures out.Object? ==> Added(old(slabs), c, i, k, out.addr) && Chosen(old(lists)[c], old(slabs), i)
      ensures out.Object? ==> ServesNext(c, i)
      ensures !out.Object? ==> slabs == old(slabs) && lists == old(lists) && room == old(room)
      ensures fresh(parts - old(parts))
    {
      hide Valid, Added, Is, Mirror, Moved, KindOf, ServesNext, Exhausted, BuddySystem.Valid;
      CoreOf();
      ListedIs(lists, slabs, c);
      if lists[c].partial != [] {
        i := lists[c].partial[0];
        var addr;
        addr, k := TakeFrom(c, lists[c].partial[0], PartialSlab);
        Front(old(lists), c, i, Some(PartialSlab));
        out := Object(addr);
      } else if lists[c].free != [] {
        i := lists[c].free[0];
        var addr;
        addr, k := TakeFrom(c, lists[c].free[0], FreeSlab);
        Front(old(lists), c, i, Some(FreeSlab));
        out := Object(addr);
      } else {
        out, i, k := FromNew(c);
        if out.Object? { Front(old(lists), c, i, None); }
      }
    }

    lemma CoreOf()
      requires Valid()
      ensures |lists| == 9 && AllOk(lists, slabs)
    {}

    /** kmem_alloc: the smallest size class that fits serves the request, whenever it can; requests over 2048 bytes
        get nothing. */
    method KmemAlloc(objsize: nat) returns (out: Outcome, ghost c: nat, ghost i: nat, ghost k: nat)
      requires Valid()
      modifies this, buddy, buddy.indices, buddy.buddies, buddy.adats, parts
      ensures Valid() && Others() == old(Others()) && fresh(parts - old(parts)) && MemoryKept()
      ensures objsize > 2048 ==> out == NoMemory
      ensures objsize <= 2048 ==> c < 9 && objsize <= Pow2(c + 3) && (c > 0 ==> Pow2(c + 2) < objsize)
      ensures objsize <= 2048 ==> old(c < |lists|) && (out.Object? <==> old(Serves(c)))
                                  && (out.Fault? <==> !old(Serves(c)) && old(room) > 0 && reading.AsWritten?)
      ensures out.Object? ==> Added(old(slabs), c, i, k, out.addr) && Chosen(old(lists)[c], old(slabs), i)
      ensures !out.Object? ==> slabs == old(slabs) && lists == old(lists) && room == old(room)
    {
      hide Valid, Added, Serves, Mirror, Chosen, Pow2;
      CoreOf();
      Classes();
      c, i, k := 0, 0, 0;
      if objsize > SIZES[|SIZES| - 1] {
        return NoMemory, c, i, k;
      }
      if objsize <= SIZES[0] {
        out, i, k := CacheAlloc(0);
      } else {
        var res := 0;
        while objsize > SIZES[res]
          invariant res < 9 && forall j :: 0 <= j < res ==> SIZES[j] < objsize
          decreases 9 - res
        {
          res := res + 1;
        }
        c := res;
        out, i, k := CacheAlloc(res);
      }
      assert c > 0 ==> SIZES[c - 1] < objsize;
    }

    /** What freeing object k of slab i does: it leaves the objects handed out. */
    ghost predicate Removed(was: map<nat, SlabRec>, c: nat, i: nat, k: nat)
      reads this`slabs
    {
      i in was && slabs == was[i := SlabRec(c, was[i].live - {k})]
    }

    // slab_contain
    predicate Contain(i: nat, addr: nat)
      reads this`child
    {
      i in child && child[i].Contain(addr)
    }

    lemma ContainIs(i: nat, addr: nat)
      requires Mirror(slabs) && i in slabs
      ensures Contain(i, addr) <==> Inside(buddy.managedStart, i, addr)
    {}

    // the list_for_each loops of kmem_cache_free
    method Search(list: seq<nat>, addr: nat) returns (found: Option<nat>)
      ensures found.Some? ==> exists n :: 0 <= n < |list| && found.value == list[n] && Contain(list[n], addr)
                                          && forall m :: 0 <= m < n ==> !Contain(list[m], addr)
      ensures found.None? ==> forall i: nat :: i in list ==> !Contain(i, addr)
    {
      var n := 0;
      while n < |list|
        invariant 0 <= n <= |list| && forall m :: 0 <= m < n ==> !Contain(list[m], addr)
      {
        if Contain(list[n], addr) {
          return Some(list[n]);
        }
        n := n + 1;
      }
      return None;
    }

    // slab_free in slab i
    method FreeIn(c: nat, i: nat, addr: nat, ghost k: nat)
      requires Valid() && IsObject(slabs, buddy.managedStart, c, i, k, addr)
      modifies child[i], child[i].words
      ensures Core() && Mirror(slabs[i := SlabRec(c, slabs[i].live - {k})]) && DataKept()
    {
      hide BuddySystem.Valid, AllOk, Backed, RecOk, Counted, Slab.Slab.Valid;
      assert ChildIs(child[i], buddy.managedStart, i, slabs[i]);
      child[i].Free(addr, k);
    }

    // slab_free of object k of slab i, then the move to the list of its new kind (lines 97-104 and 115-119)
    method GiveTo(c: nat, i: nat, from: Kind, addr: nat, ghost k: nat)
      requires Valid() && Is(slabs, i, c, from) && from != FreeSlab
               && IsObject(slabs, buddy.managedStart, c, i, k, addr)
      modifies this`lists, this`slabs, parts
      ensures Valid() && i in slabs && Removed(old(slabs), c, i, k) && Others() == old(Others()) && DataKept()
      ensures slabs[i].cache == c
      ensures lists == old(lists)[c := Moved(old(lists)[c], i, Some(from), Some(KindOf(slabs[i])))]
    {
      hide Core, KindOf, TotalOf, Moved, Counted, Slab.Slab.Valid, Blocks;
      FreeIn(c, i, addr, k);
      ghost var rec := SlabRec(c, slabs[i].live - {k});
      SmallerOk(slabs[i], rec);
      KindIs(child[i], buddy.managedStart, i, rec);
      GivenFull(slabs[i], c, k);
      GivenNotFull(slabs[i], c, k);
      Record(c, i, from, if from == PartialSlab && child[i].Empty() then FreeSlab else PartialSlab, rec);
    }

    /** kmem_cache_free of a live object finds its slab, on the partial or the full list; a slab that was full serves
        next. */
    method CacheFree(c: nat, addr: nat, ghost i: nat, ghost k: nat) returns (panic: bool)
      requires Valid() && IsObject(slabs, buddy.managedStart, c, i, k, addr)
      modifies this`lists, this`slabs, parts
      ensures !panic && Valid() && Removed(old(slabs), c, i, k) && Others() == old(Others()) && DataKept()
      ensures old(Is(slabs, i, c, FullSlab)) ==> ServesNext(c, i)
    {
      hide Valid, AllOk, Others, Removed, Mirror;
      CoreOf();
      Owner(c, addr, i, k);
      panic := false;
      var found := Search(lists[c].partial, addr);
      if found.Some? {
        GiveTo(c, found.value, PartialSlab, addr, k);
      } else {
        found := Search(lists[c].full, addr);
        if found.Some? {
          GiveTo(c, found.value, FullSlab, addr, k);
          Front(old(lists), c, i, Some(FullSlab));
        } else {
          panic := true;
        }
      }
    }

    lemma Owner(c: nat, addr: nat, i: nat, k: nat)
      requires Valid() && IsObject(slabs, buddy.managedStart, c, i, k, addr)
      ensures |lists| == 9 && c < 9 && Contain(i, addr) && (i in lists[c].partial || i in lists[c].full)
      ensures forall j: nat :: j in lists[c].partial ==> Is(slabs, j, c, PartialSlab) && (Contain(j, addr) ==> j == i)
      ensures forall j: nat :: j in lists[c].full ==> Is(slabs, j, c, FullSlab) && (Contain(j, addr) ==> j == i)
    {
      hide BuddySystem.Valid, AllOk, Backed, Mirror, Inside, Contain;
      OwnerInside(c, addr, i, k);
      ContainIs(i, addr);
      forall j: nat | j in lists[c].partial || j in lists[c].full ensures Contain(j, addr) ==> j == i {
        ContainIs(j, addr);
      }
    }

    lemma OwnerInside(c: nat, addr: nat, i: nat, k: nat)
      requires Valid() && IsObject(slabs, buddy.managedStart, c, i, k, addr)
      ensures |lists| == 9 && c < 9 && Inside(buddy.managedStart, i, addr)
      ensures i in lists[c].partial || i in lists[c].full
      ensures forall j: nat :: j in lists[c].partial ==>
                Is(slabs, j, c, PartialSlab) && (Inside(buddy.managedStart, j, addr) ==> j == i)
      ensures forall j: nat :: j in lists[c].full ==>
                Is(slabs, j, c, FullSlab) && (Inside(buddy.managedStart, j, addr) ==> j == i)
    {
      OwnerListed(buddy.Abs(), buddy.totalPages, buddy.managedStart, buddy.adats[..], lists, slabs, c, i, k, addr);
    }

    /** Whatever the owner of a live object stores in it, nothing is disturbed. */
    method UserStore(i: nat, w: nat, value: nat)
      requires Valid() && i in child && w < child[i].words.Length && child[i].Owned(w)
      modifies child[i].words
      ensures Valid() && slabs == old(slabs) && child == old(child)
      ensures child[i].words[..] == old(child[i].words[..])[w := value]
    {
      hide BuddySystem.Valid, AllOk, Backed, Counted, Slab.Slab.Valid;
      assert ChildIs(child[i], buddy.managedStart, i, slabs[i]);
      child[i].UserWrite(w, value);
    }

    lemma PageNamed(addr: nat, page: nat, c: nat, i: nat, k: nat)
      requires Valid() && IsObject(slabs, buddy.managedStart, c, i, k, addr) && page == addr - addr % PAGE_SIZE
      ensures buddy.Valid() && buddy.managedStart <= page && buddy.IndexOf(page) < buddy.totalPages
      ensures buddy.IndexOf(page) < buddy.adats.Length && buddy.adats[buddy.IndexOf(page)] == c
    {
      hide BuddySystem.Valid, AllOk, Backed, IsObject;
      OwnerPage(buddy.live, buddy.managedStart, buddy.adats[..], lists, slabs, c, i, k, addr);
    }

    /** kmem_free: the adat of the object's page names its cache, whichever of the two pages it is in, so a
        live object is always found, and it alone is freed. */
    method KmemFree(addr: nat, ghost c: nat, ghost i: nat, ghost k: nat) returns (panic: bool)
      requires Valid() && IsObject(slabs, buddy.managedStart, c, i, k, addr)
      modifies this`lists, this`slabs, parts
      ensures !panic && Valid() && Removed(old(slabs), c, i, k) && Others() == old(Others()) && DataKept()
    {
      hide Valid, BuddySystem.Valid, IsObject, Removed, Others, Mirror;
      PageNamed(addr, addr - addr % PAGE_SIZE, c, i, k);
      var kc := buddy.GetAdat(addr - addr % PAGE_SIZE);
      panic := CacheFree(kc, addr, i, k);
    }

    method Drop(i: nat)
      requires Mirror(slabs) && i in slabs
      modifies this`child
      ensures Mirror(slabs - {i}) && child == old(child) - {i}
    {
      hide ChildIs;
      child := child - {i};
    }

    // the record of a slab whose block was freed goes back to pslab
    method Forget(c: nat, i: nat)
      requires buddy.Valid() && buddy.managedStart > 0 && buddy.managedStart % PAGE_SIZE == 0
      requires buddy.adats.Length == buddy.totalPages && buddy.adats != buddy.indices && |lists| == 9
      requires AllOk(lists, slabs) && c < 9 && Is(slabs, i, c, FreeSlab) && Counted()
      requires Backed(buddy.live, buddy.adats[..], slabs - {i})
      modifies this`lists, this`slabs, this`room
      ensures Core() && Counted() && slabs == old(slabs) - {i}
      ensures lists == old(lists)[c := Moved(old(lists)[c], i, Some(FreeSlab), None)]
    {
      hide BuddySystem.Valid, AllOk, Moved, Backed, KindOf, RecOk;
      MovedKeeps(lists, slabs, slabs - {i}, c, i, Some(FreeSlab), None);
      FewerSlabs(slabs, i);
      lists := lists[c := Moved(lists[c], i, Some(FreeSlab), None)];
      slabs := slabs - {i};
      room := room + 1;
    }

    // slab_destory of an empty slab, after list_del
    method Destroy(c: nat, i: nat)
      requires Valid() && c < 9 && Is(slabs, i, c, FreeSlab)
      modifies this, buddy, buddy.indices, buddy.buddies
      ensures Valid() && Others() == old(Others())
      ensures slabs == old(slabs) - {i} && lists == old(lists)[c := Moved(old(lists[c]), i, Some(FreeSlab), None)]
    {
      hide BuddySystem.Valid, AllOk, Moved, Backed, RecOk, KindOf, Mirror, Blocks, BuddySystem.Address, Counted;
      GoneBacked(buddy.live, buddy.adats[..], slabs, i);
      Drop(i);
      PmemFree(buddy, buddy.Address(i), Block(i, ORDER));
      Forget(c, i);
    }

    // kmem_cache_shrink
    method CacheShrink(c: nat, ghost was: map<nat, SlabRec>)
      requires Valid() && c < 9 && Shrunk(was, slabs, c)
      modifies this, buddy, buddy.indices, buddy.buddies
      ensures Valid() && Others() == old(Others()) && Shrunk(was, slabs, c + 1)
      ensures OnlyOf(old(slabs), slabs, c)
    {
      hide BuddySystem.Valid, AllOk, Others, Moved, Is, Shrunk, Backed, Mirror, Valid, OnlyOf;
      CoreOf();
      NoneGone(slabs, c);
      while lists[c].free != []
        invariant Valid() && |lists| == 9 && Others() == old(Others()) && Shrunk(was, slabs, c)
                  && OnlyOf(old(slabs), slabs, c)
        decreases |lists[c].free|
      {
        CoreOf();
        ListedIs(lists, slabs, c);
        OneGone(old(slabs), slabs, lists[c].free[0], c);
        ShorterList(lists[c], lists[c].free[0]);
        ShrinkOne(was, slabs, lists[c].free[0], c);
        Destroy(c, lists[c].free[0]);
      }
      CoreOf();
      NoneEmpty(was, lists, slabs, c);
    }

    /** kmem_shrink: every empty slab goes back to the buddy allocator, and nothing else does. */
    method KmemShrink()
      requires Valid()
      modifies this, buddy, buddy.indices, buddy.buddies
      ensures Valid() && Others() == old(Others()) && Shrunk(old(slabs), slabs, 9)
      ensures (forall i :: i in old(slabs) ==>
                old(slabs)[i].live == {}) ==> slabs == map[] && buddy.live == old(Others())
    {
      ghost var was := slabs;
      hide BuddySystem.Valid, AllOk, Shrunk, Backed, Mirror, Valid;
      NotYetShrunk(was);
      var c := 0;
      while c < 9
        invariant 0 <= c <= 9 && Valid() && Others() == old(Others()) && Shrunk(was, slabs, c)
      {
        CacheShrink(c, was);
        c := c + 1;
      }
      CoreOf();
      AllGone(was, lists, slabs, buddy.live);
    }

    // pmem_set_adat on a new block
    method NameOwner(c: nat, pa: nat, ghost i: nat)
      requires buddy.Valid() && pa == buddy.Address(i) && Block(i, ORDER) in buddy.live
      modifies buddy.adats
      ensures i + 1 < buddy.adats.Length && buddy.adats[i] == c && buddy.adats[i + 1] == c
      ensures forall p :: 0 <= p < buddy.adats.Length && p != i && p != i + 1 ==> buddy.adats[p] == old(buddy.adats[p])
      ensures buddy.IndexOf(pa) == i
      ensures forall j: nat :: Block(j, ORDER) in buddy.live && j != i ==> j + 1 < i || i + 1 < j
    {
      forall j: nat | Block(j, ORDER) in buddy.live && j != i ensures j + 1 < i || i + 1 < j {
        LiveBlocksApart(buddy.Abs(), buddy.totalPages, i, j);
      }
      buddy.AddressRoundTrip(i);
      LiveRecord(buddy.Abs(), buddy.buddies[..], Block(i, ORDER), buddy.totalPages);
      OrderTwoPages();
      buddy.SetAdat(pa, c);
    }
  }

  /** A new slab counts one, a changed one nothing. */
  lemma SlabCount(slabs: map<nat, SlabRec>, i: nat, rec: SlabRec)
    ensures |slabs[i := rec]| == |slabs| + if i in slabs then 0 else 1
  {
    assert slabs[i := rec].Keys == slabs.Keys + {i};
    assert |slabs[i := rec].Keys| == |slabs[i := rec]| && |slabs.Keys| == |slabs|;
  }

  lemma FewerSlabs(slabs: map<nat, SlabRec>, i: nat)
    requires i in slabs
    ensures |slabs - {i}| == |slabs| - 1
  {
    assert (slabs - {i}).Keys == slabs.Keys - {i};
    assert |(slabs - {i}).Keys| == |slabs - {i}| && |slabs.Keys| == |slabs|;
  }

  lemma StillBacked(live: set<Block>, adats: seq<int>, slabs: map<nat, SlabRec>, i: nat, rec: SlabRec)
    requires Backed(live, adats, slabs) && i in slabs && rec.cache == slabs[i].cache
    ensures Backed(live, adats, slabs[i := rec])
  {}

  lemma NewRec(c: nat, rec: SlabRec, start: nat, i: nat)
    requires c < 9 && rec == SlabRec(c, {0})
    ensures RecOk(rec) && KindOf(rec) == PartialSlab && 0 < TotalOf(c) && {} + {0} == rec.live
            && ObjAddr(start, i, SIZES[c], 0) == start + i * PAGE_SIZE
  {}

  /** A new block, named after its owner, disturbs no other slab. */
  lemma NewBacked(live: set<Block>, wasLive: set<Block>, adats: seq<int>, wasAdats: seq<int>, slabs: map<nat, SlabRec>,
                  i: nat, rec: SlabRec)
    requires Backed(wasLive, wasAdats, slabs) && |adats| == |wasAdats|
    requires Block(i, ORDER) !in wasLive && live == wasLive + {Block(i, ORDER)}
    requires forall j: nat :: Block(j, ORDER) in live && j != i ==> j + 1 < i || i + 1 < j
    requires i + 1 < |adats| && adats[i] == rec.cache && adats[i + 1] == rec.cache
    requires forall p :: 0 <= p < |adats| && p != i && p != i + 1 ==> adats[p] == wasAdats[p]
    ensures i !in slabs && Backed(live, adats, slabs[i := rec])
    ensures live - Blocks(slabs[i := rec]) == wasLive - Blocks(slabs)
  {
    var slabs' := slabs[i := rec];
    forall j | j in slabs ensures PagesOf(wasLive, wasAdats, j, slabs[j].cache) && j != i && Block(j, ORDER) in live {}
    forall j | j in slabs' ensures PagesOf(live, adats, j, slabs'[j].cache) {
      if j != i { assert PagesOf(wasLive, wasAdats, j, slabs[j].cache); }
    }
    assert Blocks(slabs') == Blocks(slabs) + {Block(i, ORDER)};
  }

  lemma SameBlocks(slabs: map<nat, SlabRec>, i: nat, a: SlabRec, b: SlabRec)
    ensures slabs[i := a][i := b] == slabs[i := b]
    ensures Blocks(slabs[i := a]) == Blocks(slabs[i := b])
  {
    assert slabs[i := a].Keys == slabs[i := b].Keys;
    SameKeys(slabs[i := a], slabs[i := b]);
  }

  lemma SameKeys(a: map<nat, SlabRec>, b: map<nat, SlabRec>)
    requires a.Keys == b.Keys
    ensures Blocks(a) == Blocks(b)
  {
    assert forall j :: j in a.Keys ==> Block(j, ORDER) in Blocks(a) && Block(j, ORDER) in Blocks(b);
  }

  // ----- addresses

  /** Object k of a slab lies in the slab's block, in one of its two pages. */
  lemma ObjectInSlab(start: nat, i: nat, c: nat, k: nat, addr: nat)
    requires c < 9 && k < TotalOf(c) && addr == ObjAddr(start, i, SIZES[c], k)
    ensures start + i * PAGE_SIZE <= addr && addr + SIZES[c] <= start + i * PAGE_SIZE + BLOCK
  {
    SizesPositive(c);
    Slab.SlotInBlock(start + i * PAGE_SIZE, SIZES[c], BLOCK, k);
  }

  /** The size classes are the powers of two from 8 to 2048. */
  lemma {:induction false} Classes()
    ensures |SIZES| == 9 && forall c :: 0 <= c < 9 ==> SIZES[c] == Pow2(c + 3)
  {
    var three: nat := 3;
    assert Pow2(three) == 8;
    forall c | 0 <= c < 9 ensures SIZES[c] == Pow2(c + 3) {
      assert Pow2(three + 1) == 16 && Pow2(three + 2) == 32 && Pow2(three + 3) == 64 && Pow2(three + 4) == 128;
      assert Pow2(three + 5) == 256 && Pow2(three + 6) == 512 && Pow2(three + 7) == 1024 && Pow2(three + 8) == 2048;
    }
  }

  lemma SizesPositive(c: nat)
    requires c < 9
    ensures SIZES[c] > 0 && BLOCK % SIZES[c] == 0
  {}

  /** Live objects do not overlap. */
  lemma ObjectsDisjoint(s: State, total: nat, start: nat, adats: seq<int>, lists: seq<Lists>, slabs: map<nat, SlabRec>,
                        c: nat, i: nat, k: nat, a: nat, d: nat, j: nat, l: nat, b: nat)
    requires Inv(s, total) && AllOk(lists, slabs) && Backed(s.live, adats, slabs)
    requires IsObject(slabs, start, c, i, k, a) && IsObject(slabs, start, d, j, l, b) && (i, k) != (j, l)
    ensures a + SIZES[c] <= b || b + SIZES[d] <= a
  {
    assert RecOk(slabs[i]) && RecOk(slabs[j]);
    if i == j {
      if k < l { Slab.SlotOrder(start + i * PAGE_SIZE, SIZES[c], k, l); }
      if l < k { Slab.SlotOrder(start + i * PAGE_SIZE, SIZES[c], l, k); }
    } else {
      ObjectInSlab(start, i, c, k, a);
      ObjectInSlab(start, j, d, l, b);
      assert PagesOf(s.live, adats, i, slabs[i].cache) && PagesOf(s.live, adats, j, slabs[j].cache);
      LiveBlocksApart(s, total, i, j);
    }
  }

  /** An object lies in the block of no other slab. */
  lemma OneSlabContains(s: State, total: nat, start: nat, adats: seq<int>, slabs: map<nat, SlabRec>, i: nat, j: nat,
                        addr: nat)
    requires Inv(s, total) && Backed(s.live, adats, slabs) && i in slabs && j in slabs
    requires start + i * PAGE_SIZE <= addr < start + i * PAGE_SIZE + BLOCK
    requires start + j * PAGE_SIZE <= addr < start + j * PAGE_SIZE + BLOCK
    ensures i == j
  {
    assert PagesOf(s.live, adats, i, slabs[i].cache) && PagesOf(s.live, adats, j, slabs[j].cache);
    if i != j { LiveBlocksApart(s, total, i, j); }
  }

  lemma ListedIs(lists: seq<Lists>, slabs: map<nat, SlabRec>, c: nat)
    requires AllOk(lists, slabs) && c < 9
    ensures lists[c].partial != [] ==> Is(slabs, lists[c].partial[0], c, PartialSlab)
    ensures lists[c].free != [] ==> Is(slabs, lists[c].free[0], c, FreeSlab)
  {
    assert CacheOk(lists[c], slabs, c);
    if lists[c].partial != [] { assert lists[c].partial[0] in lists[c].partial; }
    if lists[c].free != [] { assert lists[c].free[0] in lists[c].free; }
  }

  /** The block of the slab at page i contains the address. */
  predicate Inside(start: nat, i: nat, addr: nat) {
    start + i * PAGE_SIZE <= addr < start + i * PAGE_SIZE + BLOCK
  }

  /** The slab of a live object is partial or full, on that list, and no other slab contains the address. */
  lemma OwnerListed(s: State, total: nat, start: nat, adats: seq<int>, lists: seq<Lists>, slabs: map<nat, SlabRec>,
                    c: nat, i: nat, k: nat, addr: nat)
    requires Inv(s, total) && AllOk(lists, slabs) && Backed(s.live, adats, slabs)
             && IsObject(slabs, start, c, i, k, addr)
    ensures Inside(start, i, addr) && |lists| == 9
    ensures i in lists[c].partial || i in lists[c].full
    ensures forall j: nat :: j in lists[c].partial ==>
              Is(slabs, j, c, PartialSlab) && (Inside(start, j, addr) ==> j == i)
    ensures forall j: nat :: j in lists[c].full ==> Is(slabs, j, c, FullSlab) && (Inside(start, j, addr) ==> j == i)
  {
    assert RecOk(slabs[i]) && CacheOk(lists[c], slabs, c);
    SizesPositive(c);
    ObjectInSlab(start, i, c, k, addr);
    assert Is(slabs, i, c, KindOf(slabs[i]));
    forall j: nat | j in lists[c].partial || j in lists[c].full
      ensures j in slabs && (Inside(start, j, addr) ==> j == i)
    {
      if Inside(start, j, addr) { OneSlabContains(s, total, start, adats, slabs, i, j, addr); }
    }
  }

  /** The page of a live object belongs to its slab's block, whose adat is the cache. */
  lemma OwnerPage(live: set<Block>, start: nat, adats: seq<int>, lists: seq<Lists>, slabs: map<nat, SlabRec>,
                  c: nat, i: nat, k: nat, addr: nat)
    requires AllOk(lists, slabs) && Backed(live, adats, slabs) && IsObject(slabs, start, c, i, k, addr)
             && start % PAGE_SIZE == 0
    ensures var p := (addr - addr % PAGE_SIZE - start) / PAGE_SIZE;
            start <= addr - addr % PAGE_SIZE && 0 <= p < |adats| && adats[p] == c
  {
    assert RecOk(slabs[i]) && PagesOf(live, adats, i, slabs[i].cache);
    SizesPositive(c);
    ObjectInSlab(start, i, c, k, addr);
    AlignedPage(start, i, addr);
  }

  lemma AlignedPage(start: nat, i: nat, addr: nat)
    requires start % PAGE_SIZE == 0 && Inside(start, i, addr)
    ensures start <= addr - addr % PAGE_SIZE
    ensures (addr - addr % PAGE_SIZE - start) / PAGE_SIZE == i || (addr - addr % PAGE_SIZE - start) / PAGE_SIZE == i + 1
  {}

  lemma GivenNotFull(rec: SlabRec, c: nat, k: nat)
    requires RecOk(rec) && rec.cache == c && k in rec.live
    ensures KindOf(SlabRec(c, rec.live - {k})) != FullSlab
  {
    LiveBound(rec.live, TotalOf(c));
    assert |rec.live - {k}| == |rec.live| - 1;
  }

  /** After slab_free a full slab is partial, never empty, since every slab has at least four objects. */
  lemma GivenFull(rec: SlabRec, c: nat, k: nat)
    requires RecOk(rec) && rec.cache == c && k in rec.live
    ensures KindOf(rec) == FullSlab ==> KindOf(SlabRec(c, rec.live - {k})) == PartialSlab
  {
    assert |rec.live - {k}| == |rec.live| - 1;
  }

  lemma SmallerOk(rec: SlabRec, smaller: SlabRec)
    requires RecOk(rec) && smaller.cache == rec.cache && smaller.live <= rec.live
    ensures RecOk(smaller)
  {}

  lemma GoneBacked(live: set<Block>, adats: seq<int>, slabs: map<nat, SlabRec>, i: nat)
    requires Backed(live, adats, slabs) && i in slabs
    ensures Block(i, ORDER) in live && Backed(live - {Block(i, ORDER)}, adats, slabs - {i})
    ensures live - {Block(i, ORDER)} - Blocks(slabs - {i}) == live - Blocks(slabs)
  {
    assert PagesOf(live, adats, i, slabs[i].cache);
    forall j | j in slabs - {i} ensures PagesOf(live - {Block(i, ORDER)}, adats, j, (slabs - {i})[j].cache) {
      assert PagesOf(live, adats, j, slabs[j].cache);
    }
    assert Blocks(slabs) == Blocks(slabs - {i}) + {Block(i, ORDER)};
  }

  lemma ShorterList(l: Lists, i: nat)
    requires l.free != [] && l.free[0] == i
    ensures |Moved(l, i, Some(FreeSlab), None).free| < |l.free|
  {}

  /** Some slabs that were empty are gone, all of them for the caches below done; nothing else changed. */
  ghost predicate Shrunk(was: map<nat, SlabRec>, slabs: map<nat, SlabRec>, done: nat) {
    && (forall i :: i in slabs ==> i in was && slabs[i] == was[i])
    && (forall i :: i in was && i !in slabs ==> was[i].live == {})
    && (forall i :: i in slabs && slabs[i].cache < done ==> slabs[i].live != {})
  }

  /** Only slabs of cache c are gone. */
  ghost predicate OnlyOf(was: map<nat, SlabRec>, slabs: map<nat, SlabRec>, c: nat) {
    && (forall i :: i in was && i !in slabs ==> was[i].cache == c)
    && (forall i :: i in slabs ==> i in was && was[i] == slabs[i])
  }

  lemma NoneGone(slabs: map<nat, SlabRec>, c: nat)
    ensures OnlyOf(slabs, slabs, c)
  {}

  lemma OneGone(was: map<nat, SlabRec>, slabs: map<nat, SlabRec>, i: nat, c: nat)
    requires OnlyOf(was, slabs, c) && Is(slabs, i, c, FreeSlab)
    ensures OnlyOf(was, slabs - {i}, c)
  {}

  lemma NotYetShrunk(was: map<nat, SlabRec>)
    ensures Shrunk(was, was, 0)
  {}

  lemma ShrinkOne(was: map<nat, SlabRec>, slabs: map<nat, SlabRec>, i: nat, c: nat)
    requires Shrunk(was, slabs, c) && Is(slabs, i, c, FreeSlab)
    ensures Shrunk(was, slabs - {i}, c)
  {}

  lemma NoneEmpty(was: map<nat, SlabRec>, lists: seq<Lists>, slabs: map<nat, SlabRec>, c: nat)
    requires AllOk(lists, slabs) && c < 9 && lists[c].free == [] && Shrunk(was, slabs, c)
    ensures Shrunk(was, slabs, c + 1)
  {
    assert CacheOk(lists[c], slabs, c);
    forall i | i in slabs && slabs[i].cache == c ensures slabs[i].live != {} {
      assert !Is(slabs, i, c, FreeSlab);
    }
  }

  lemma AllGone(was: map<nat, SlabRec>, lists: seq<Lists>, slabs: map<nat, SlabRec>, live: set<Block>)
    requires AllOk(lists, slabs) && Shrunk(was, slabs, 9)
    ensures (forall i :: i in was ==> was[i].live == {}) ==> slabs == map[] && live - Blocks(slabs) == live
  {
    assert forall i :: i in slabs ==> slabs[i].cache < 9;
    if forall i :: i in was ==> was[i].live == {} {
      assert slabs.Keys == {};
      assert slabs == map[];
    }
  }
}
