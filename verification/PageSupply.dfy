/** The pages of a process come from one buddy allocator: those for its page tables and the frames for its program
    (pmem_alloc(0) in kernel/pte.c and kernel/process.c). */
module PageSupply {
  import opened Defs
  import opened Readings
  import opened Collections
  import opened Bits
  import opened BuddyBlocks
  import opened BuddyRuns
  import opened Buddy
  import opened PageEntry
  import opened Words
  import PageTree
  import PageTable
  import Kmem
  import Vfs
  import Loader

  // ----- page numbers as 64-bit addresses

  /** The address of page p. */
  function PageAddress(p: nat): Word {
    AddressAt(Binary(p))
  }

  /** The word is the address of the page as a number, so different pages have different addresses. */
  lemma PageAddressFacts(p: nat, q: nat)
    requires p < Pow2(PAGE_BITS) && q < Pow2(PAGE_BITS)
    ensures Align4K(PageAddress(p)) == PageAddress(p) && Value(PageAddress(p)) == p * PAGE_SIZE
    ensures PageAddress(p) == PageAddress(q) ==> p == q
  {
    hide Pow2, Align4K, Value, AddressAt;
    AddressValue(p);
    AddressValue(q);
  }

  // ----- pages from the allocator

  /** The words are the addresses of different pages of the allocator, each a live block of its own. */
  ghost predicate Supplied(live: set<Block>, first: nat, pages: seq<nat>, words: seq<Word>) {
    && |words| == |pages| && Distinct(pages)
    && forall i :: 0 <= i < |pages| ==> Block(pages[i], 0) in live && words[i] == PageAddress(first + pages[i])
  }

  /** Page number of the first managed page. */
  function FirstPage(b: BuddySystem): nat {
    b.managedStart / PAGE_SIZE
  }

  /** The managed pages are below 2^64 and aligned. */
  predicate Addressable(b: BuddySystem) {
    b.managedStart % PAGE_SIZE == 0 && FirstPage(b) + b.totalPages <= Pow2(PAGE_BITS)
  }

  /** The words of supplied pages are aligned and different. */
  lemma SuppliedDistinct(live: set<Block>, first: nat, pages: seq<nat>, words: seq<Word>, total: nat)
    requires Supplied(live, first, pages, words) && first + total <= Pow2(PAGE_BITS)
    requires forall i :: 0 <= i < |pages| ==> pages[i] < total
    ensures forall i :: 0 <= i < |words| ==> Align4K(words[i]) == words[i]
    ensures forall i, j :: 0 <= i < j < |words| ==> words[i] != words[j]
  {
    hide PageAddress, Pow2, Align4K;
    forall i | 0 <= i < |words| ensures Align4K(words[i]) == words[i] {
      PageAddressFacts(first + pages[i], first + pages[i]);
    }
    forall i, j | 0 <= i < j < |words| ensures words[i] != words[j] {
      PageAddressFacts(first + pages[i], first + pages[j]);
    }
  }

  // n calls of pmem_alloc(0); fewer when one fails
  method TakePages(b: BuddySystem, reading: Reading, n: nat) returns (words: seq<Word>, ghost pages: seq<nat>)
    requires b.Valid() && Addressable(b)
    modifies b, b.indices, b.buddies
    ensures b.Valid() && |words| <= n && old(b.live) <= b.live && Supplied(b.live, FirstPage(b), pages, words)
    ensures forall i :: 0 <= i < |pages| ==> Block(pages[i], 0) !in old(b.live) && pages[i] < b.totalPages
    ensures forall i :: 0 <= i < |pages| ==> Value(words[i]) == b.Address(pages[i])
    ensures |words| < n ==> Exhausted(b.FreeBlocks(), 0)
  {
    hide BuddySystem.Valid, PageAddress, Value, Pow2, Align4K, Exhausted, Step;
    words, pages := [], [];
    var more := true;
    while |words| < n && more
      invariant b.Valid() && |words| <= n && old(b.live) <= b.live && Supplied(b.live, FirstPage(b), pages, words)
      invariant forall i :: 0 <= i < |pages| ==> Block(pages[i], 0) !in old(b.live) && pages[i] < b.totalPages
      invariant forall i :: 0 <= i < |pages| ==> Value(words[i]) == b.Address(pages[i])
      invariant !more ==> Exhausted(b.FreeBlocks(), 0)
      decreases n - |words|, more
    {
      var pa;
      ghost var index;
      pa, index := Kmem.PmemAlloc(b, 0, reading);
      if pa.None? {
        more := false;
      } else {
        NumberAt(b, index, pa.value);
        words := words + [PageAddress(pa.value / PAGE_SIZE)];
        pages := pages + [index];
      }
    }
  }

  lemma NumberAt(b: BuddySystem, index: nat, pa: nat)
    requires Addressable(b) && index < b.totalPages && pa == b.Address(index)
    ensures pa / PAGE_SIZE == FirstPage(b) + index && Value(PageAddress(pa / PAGE_SIZE)) == pa
  {
    hide Pow2, Value, PageAddress;
    assert pa / PAGE_SIZE == FirstPage(b) + index && pa % PAGE_SIZE == 0;
    PageAddressFacts(pa / PAGE_SIZE, pa / PAGE_SIZE);
  }

  // ----- a process

  /** What the pages hold. */
  function Held(ram: Loader.Ram, words: seq<Word>): (m: Loader.Ram)
    requires forall i :: 0 <= i < |words| ==> PageTree.Frame(words[i]) in ram
    ensures m.Keys == PageTable.Frames(words)
  {
    map i | 0 <= i < |words| :: PageTree.Frame(words[i]) := ram[PageTree.Frame(words[i])]
  }

  /** The pages taken last share none with those taken before. */
  lemma Apart(live: set<Block>, first: nat, p: seq<nat>, ws: seq<Word>, live': set<Block>, q: seq<nat>, xs: seq<Word>,
              total: nat)
    requires Supplied(live, first, p, ws) && Supplied(live', first, q, xs) && first + total <= Pow2(PAGE_BITS)
    requires forall i :: 0 <= i < |p| ==> p[i] < total
    requires forall i :: 0 <= i < |q| ==> q[i] < total && Block(q[i], 0) !in live
    ensures PageTable.Frames(ws) !! PageTable.Frames(xs)
  {
    hide PageAddress, Pow2, Align4K;
    forall i, j | 0 <= i < |ws| && 0 <= j < |xs| ensures ws[i] != xs[j] {
      PageAddressFacts(first + p[i], first + q[j]);
    }
  }

  /** Page p of the allocator holds a page of bytes. */
  predicate PageHeld(b: BuddySystem, ram: Loader.Ram, p: nat) {
    var f := PageTree.Frame(PageAddress(FirstPage(b) + p));
    f in ram && |ram[f]| == PAGE_SIZE
  }

  /** The pages fit the constructors of the page table and of the process. */
  lemma Fit(b: BuddySystem, ram: Loader.Ram, live: set<Block>, p: seq<nat>, ts: seq<Word>, q: seq<nat>, fs: seq<Word>)
    requires Addressable(b) && Supplied(live, FirstPage(b), p, ts) && Supplied(b.live, FirstPage(b), q, fs)
    requires forall i :: 0 <= i < |p| ==> p[i] < b.totalPages
    requires forall i :: 0 <= i < |q| ==> q[i] < b.totalPages && Block(q[i], 0) !in live
    requires forall k: nat :: k < b.totalPages ==> PageHeld(b, ram, k)
    ensures PageTable.PoolOk(ts, map[]) && PageTable.Frames(ts) !! PageTable.Frames(fs)
    ensures forall i :: 0 <= i < |fs| ==> PageTree.Frame(fs[i]) in ram
    ensures Loader.RamOk([], fs, Held(ram, fs))
  {
    hide PageAddress, Pow2;
    SuppliedDistinct(live, FirstPage(b), p, ts, b.totalPages);
    SuppliedDistinct(b.live, FirstPage(b), q, fs, b.totalPages);
    Apart(live, FirstPage(b), p, ts, b.live, q, fs, b.totalPages);
    forall i | 0 <= i < |fs|
      ensures PageTree.Frame(fs[i]) in ram && |ram[PageTree.Frame(fs[i])]| == PAGE_SIZE
    {
      assert PageHeld(b, ram, q[i]);
    }
  }

  lemma FirstFrame(ts: seq<Word>)
    requires ts != []
    ensures PageTable.Frames(ts) == {PageTree.Frame(ts[0])} + PageTable.Frames(ts[1..])
    ensures [ts[0]] + ts[1..] == ts
  {
    PageTable.FramesSplit(ts, 1);
    assert ts[..1] == [ts[0]];
  }

  /** A process whose page tables and frames are blocks of one allocator: none is both. There is one exactly when all
      its pages for tables, at least one, could be had. */
  method Prepare(b: BuddySystem, reading: Reading, files: Vfs.FileCache, node: nat, ram: Loader.Ram, tables: nat,
                 frames: nat)
    returns (t: Option<Loader.Task>, ghost tablePages: seq<nat>, ghost framePages: seq<nat>)
    requires b.Valid() && Addressable(b) && files.Valid() && node < |files.nodes|
    requires forall p: nat :: p < b.totalPages ==> PageHeld(b, ram, p)
    modifies b, b.indices, b.buddies
    ensures b.Valid() && old(b.live) <= b.live
    ensures t.None? <==> tablePages == [] || |tablePages| < tables
    ensures |tablePages| < tables || (t.Some? && |framePages| < frames) ==> Exhausted(b.FreeBlocks(), 0)
    ensures t.Some? ==>
              && fresh(t.value) && t.value.Valid() && t.value.done == []
              && Supplied(b.live, FirstPage(b), tablePages, [t.value.tables.root] + t.value.tables.pool)
              && Supplied(b.live, FirstPage(b), framePages, t.value.frames)
  {
    hide BuddySystem.Valid, PageAddress, Vfs.FileCache.Valid, Supplied, Addressable, PageTable.PoolOk, PageTable.Frames,
      Loader.RamOk, PageTree.Lookup, PageTree.PageOk, Held;
    var ts, fs;
    t, framePages := None, [];
    ts, tablePages := TakePages(b, reading, tables);
    SuppliedSize(b.live, FirstPage(b), tablePages, ts);
    if |ts| < tables || ts == [] {
      return None, tablePages, [];
    }
    ghost var before := b.live;
    fs, framePages := TakePages(b, reading, frames);
    SuppliedSize(b.live, FirstPage(b), framePages, fs);
    StillSupplied(before, b.live, FirstPage(b), tablePages, ts);
    Fit(b, ram, before, tablePages, ts, framePages, fs);
    var task := NewTask(files, node, Held(ram, fs), ts, fs);
    t := Some(task);
  }

  method NewTask(files: Vfs.FileCache, node: nat, ram: Loader.Ram, ts: seq<Word>, fs: seq<Word>)
    returns (t: Loader.Task)
    requires files.Valid() && node < |files.nodes| && ts != [] && PageTable.PoolOk(ts, map[])
    requires PageTable.Frames(ts) !! PageTable.Frames(fs) && ram.Keys == PageTable.Frames(fs)
    requires Loader.RamOk([], fs, ram)
    ensures fresh(t) && t.Valid() && t.done == [] && [t.tables.root] + t.tables.pool == ts && t.frames == fs
  {
    hide Vfs.FileCache.Valid, PageTable.PoolOk, PageTable.Frames, Loader.RamOk, PageTree.Lookup, PageTree.PageOk;
    FirstFrame(ts);
    var table := new PageTable.PageTables(ts);
    t := new Loader.Task(table, files, node, ram, fs);
  }

  lemma SuppliedSize(live: set<Block>, first: nat, pages: seq<nat>, words: seq<Word>)
    requires Supplied(live, first, pages, words)
    ensures |pages| == |words|
  {}

  lemma StillSupplied(live: set<Block>, live': set<Block>, first: nat, pages: seq<nat>, words: seq<Word>)
    requires Supplied(live, first, pages, words) && live <= live'
    ensures Supplied(live', first, pages, words)
  {}
}
