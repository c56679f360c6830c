/** The PT_LOAD loader of task_create in kernel/process.c: program headers, pages, page table and file reads. */
module Loader {
  import opened Defs
  import opened Collections
  import opened CacheState
  import opened FileData
  import opened FatLayout
  import opened PageEntry
  import PageTree
  import PageTable
  import Vfs

  type Byte = CacheState.Byte

  /** Page frames and the bytes in them. */
  type Ram = map<PageTree.Frame, seq<Byte>>

  // ----- program headers (System V ABI, chapter 5)

  const PHDR_SIZE: nat := 56
  const PT_LOAD: nat := 1

  datatype Phdr = Phdr(ptype: nat, flags: nat, offset: nat, vaddr: nat, filesz: nat, memsz: nat, align: nat)

  // a uint64_t
  function Le64(s: seq<Byte>, i: nat): nat {
    Le32(s, i) + WORD * Le32(s, i + 4)
  }

  function Parse(s: seq<Byte>, i: nat): Phdr {
    Phdr(Le32(s, i), Le32(s, i + 4), Le64(s, i + 8), Le64(s, i + 16), Le64(s, i + 32), Le64(s, i + 40), Le64(s, i + 48))
  }

  // task_aux_map_flags: X, W and R are bits 0, 1 and 2 of p_flags; V and U are added to what is asked for
  function MapFlags(f: nat): Word {
    FlagWord(f % 2 == 1, f / 4 % 2 == 1, f / 2 % 2 == 1)
  }

  function FlagWord(x: bool, r: bool, w: bool): Word {
    var flags: Word := (if x then 8 else 0) | (if r then 2 else 0) | (if w then 4 else 0);
    if flags == 0 then 0 else flags | 0x11
  }

  lemma FlagWordRight(x: bool, r: bool, w: bool)
    ensures var e := FlagWord(x, r, w);
            && (e == 0 <==> !x && !r && !w)
            && (e != 0 ==> LeafFlags(e) && e & 0x10 == 0x10)
            && (e & 2 == 2 <==> r) && (e & 4 == 4 <==> w) && (e & 8 == 8 <==> x)
  {}

  /** The flags make a user leaf with exactly the permissions asked for, or are zero when none is. */
  lemma MapFlagsRight(f: nat)
    ensures MapFlags(f) == 0 <==> f % 2 == 0 && f / 2 % 2 == 0 && f / 4 % 2 == 0
    ensures MapFlags(f) != 0 ==> LeafFlags(MapFlags(f)) && MapFlags(f) & 0x10 == 0x10
    ensures MapFlags(f) & 2 == 2 <==> f / 4 % 2 == 1
    ensures MapFlags(f) & 4 == 4 <==> f / 2 % 2 == 1
    ensures MapFlags(f) & 8 == 8 <==> f % 2 == 1
  {
    FlagWordRight(f % 2 == 1, f / 4 % 2 == 1, f / 2 % 2 == 1);
  }

  /** What the program loading conventions demand of a segment. */
  predicate WellFormed(seg: Phdr) {
    seg.memsz >= 1 && seg.filesz <= seg.memsz
  }

  // ----- what a loaded segment looks like

  /** What a load starts from: the file, and what every free page frame holds. */
  datatype Source = Source(file: seq<Byte>, stale: Ram)

  function StartPage(seg: Phdr): nat {
    seg.vaddr - seg.vaddr % PAGE_SIZE
  }

  /** Pages of the segment. */
  function PageCount(seg: Phdr): nat
    requires seg.memsz >= 1
  {
    (seg.vaddr + seg.memsz - 1) / PAGE_SIZE - seg.vaddr / PAGE_SIZE + 1
  }

  /** Byte a of the address space comes from the file. */
  predicate FromFile(seg: Phdr, a: nat) {
    seg.vaddr <= a < seg.vaddr + seg.filesz
  }

  /** The page at va holds the file bytes that fall into it, and is as it was elsewhere. */
  ghost predicate PageHolds(file: seq<Byte>, seg: Phdr, va: nat, data: seq<Byte>, stale: seq<Byte>) {
    && |data| == |stale| == PAGE_SIZE
    && forall o: nat :: o < PAGE_SIZE ==> ByteRight(file, seg, va + o, data[o], stale[o])
  }

  /** The byte at address a is the one the file has for it, or, when it has none, the one left in the frame. */
  predicate ByteRight(file: seq<Byte>, seg: Phdr, a: nat, byte: Byte, stale: Byte) {
    if FromFile(seg, a) then seg.offset + (a - seg.vaddr) < |file| && byte == file[seg.offset + (a - seg.vaddr)]
    else byte == stale
  }

  /** Mapping k is the page at va of the segment, with its permissions and its bytes. */
  ghost predicate PageIs(done: seq<(PageTree.Page, PageTree.Leaf)>, ram: Ram, src: Source, seg: Phdr, va: nat, k: nat) {
    && k < |done| && done[k].0 == PageTree.PageOf(va)
    && done[k].1.size == 0 && done[k].1.flags == MapFlags(seg.flags)
    && var f := PageTree.Frame(done[k].1.base);
       f in ram && f in src.stale && PageHolds(src.file, seg, va, ram[f], src.stale[f])
  }

  /** The first n pages of the segment are the mappings from `first` on. */
  ghost predicate PagesLoaded(done: seq<(PageTree.Page, PageTree.Leaf)>, ram: Ram, src: Source, seg: Phdr, first: nat,
                              n: nat) {
    forall i: nat :: i < n ==> PageIs(done, ram, src, seg, StartPage(seg) + i * PAGE_SIZE, first + i)
  }

  // ----- frames

  /** Mapped frames are page-sized and no longer free; free frames are distinct, aligned and page-sized. */
  ghost predicate RamOk(done: seq<(PageTree.Page, PageTree.Leaf)>, frames: seq<Word>, ram: Ram) {
    && (forall f :: f in ram ==> |ram[f]| == PAGE_SIZE)
    && (forall k :: 0 <= k < |done| ==> PageTree.Frame(done[k].1.base) in ram)
    && (forall i :: 0 <= i < |frames| ==> PageTree.Frame(frames[i]) in ram && Align4K(frames[i]) == frames[i])
    && (forall i, j :: 0 <= i < j < |frames| ==> frames[i] != frames[j])
    && (forall k, i :: 0 <= k < |done| && 0 <= i < |frames| ==> done[k].1.base != frames[i])
  }

  /** Free frames hold what they held at the start. */
  ghost predicate Untouched(frames: seq<Word>, ram: Ram, stale: Ram) {
    forall i :: 0 <= i < |frames| ==>
      var f := PageTree.Frame(frames[i]); f in ram && f in stale && ram[f] == stale[f]
  }

  lemma FrameTaken(done: seq<(PageTree.Page, PageTree.Leaf)>, frames: seq<Word>, ram: Ram, pg: PageTree.Page,
                   leaf: PageTree.Leaf, data: seq<Byte>)
    requires RamOk(done, frames, ram) && frames != [] && leaf.base == frames[0] && |data| == PAGE_SIZE
    ensures RamOk(done + [(pg, leaf)], frames[1..], ram[PageTree.Frame(frames[0]) := data])
    ensures forall k :: 0 <= k < |done| ==> done[k].1.base != frames[0]
  {}

  /** How far a segment is: cnt bytes copied, the next ones go to offset o of the page at va. */
  predicate Progressed(seg: Phdr, va: nat, cnt: nat, o: nat) {
    && cnt <= seg.filesz && o < PAGE_SIZE && va % PAGE_SIZE == 0
    && (if cnt < seg.filesz then seg.vaddr + cnt == va + o && (o > 0 ==> cnt == 0)
        else seg.filesz == 0 || seg.vaddr + seg.filesz <= va)
  }

  lemma OffsetBound(seg: Phdr, va: nat, cnt: nat, o: nat)
    requires Progressed(seg, va, cnt, o)
    ensures o < PAGE_SIZE
  {}

  /** The copy of lines 240-246 fills the page with its file bytes. */
  lemma PageFilled(file: seq<Byte>, seg: Phdr, va: nat, cnt: nat, o: nat, stale: seq<Byte>, len: nat, data: seq<Byte>)
    requires Progressed(seg, va, cnt, o) && |stale| == PAGE_SIZE
    requires len == if cnt < seg.filesz then Min(seg.filesz - cnt, PAGE_SIZE - o) else 0
    requires cnt < seg.filesz ==> seg.offset + cnt + len <= |file|
    requires data == if cnt < seg.filesz then Overlay(stale, o, file[seg.offset + cnt..seg.offset + cnt + len])
                     else stale
    ensures PageHolds(file, seg, va, data, stale) && |data| == PAGE_SIZE
    ensures Progressed(seg, va + PAGE_SIZE, cnt + len, if cnt < seg.filesz then 0 else o)
  {
    hide Overlay, Progressed, FromFile;
    NextProgress(seg, va, cnt, o, len);
    OffsetBound(seg, va, cnt, o);
    var part := if cnt < seg.filesz then file[seg.offset + cnt..seg.offset + cnt + len] else [];
    forall p: nat | p < PAGE_SIZE ensures ByteRight(file, seg, va + p, data[p], stale[p]) {
      if cnt < seg.filesz {
        OverlayAt(stale, o, part, p);
        FilledByte(file, seg, va, cnt, o, len, part, p);
      } else {
        NoneLeft(seg, va, cnt, o, p);
      }
    }
  }

  lemma NoneLeft(seg: Phdr, va: nat, cnt: nat, o: nat, p: nat)
    requires Progressed(seg, va, cnt, o) && cnt >= seg.filesz
    ensures !FromFile(seg, va + p)
  {}

  lemma NextProgress(seg: Phdr, va: nat, cnt: nat, o: nat, len: nat)
    requires Progressed(seg, va, cnt, o)
    requires len == if cnt < seg.filesz then Min(seg.filesz - cnt, PAGE_SIZE - o) else 0
    ensures Progressed(seg, va + PAGE_SIZE, cnt + len, if cnt < seg.filesz then 0 else o)
  {}

  lemma FilledByte(file: seq<Byte>, seg: Phdr, va: nat, cnt: nat, o: nat, len: nat, part: seq<Byte>, p: nat)
    requires Progressed(seg, va, cnt, o) && cnt < seg.filesz && len == Min(seg.filesz - cnt, PAGE_SIZE - o)
    requires seg.offset + cnt + len <= |file| && part == file[seg.offset + cnt..seg.offset + cnt + len]
    requires p < PAGE_SIZE
    ensures FromFile(seg, va + p) <==> o <= p < o + len
    ensures FromFile(seg, va + p) ==>
              seg.offset + (va + p - seg.vaddr) < |file| && part[p - o] == file[seg.offset + (va + p - seg.vaddr)]
  {}

  /** The bytes read for the page are the file's, or the file is too short. */
  lemma PartRead(file: seq<Byte>, at: nat, len: nat, part: seq<Byte>)
    requires part == Vfs.Wanted(file, at, len) && |part| == len && len > 0
    ensures at + len <= |file| && part == file[at..at + len]
  {}

  lemma PartMissing(file: seq<Byte>, at: nat, len: nat, part: seq<Byte>)
    requires part == Vfs.Wanted(file, at, len) && |part| != len && len > 0
    ensures at + len > |file|
  {}

  /** Pages mapped before are still mapped to the same frames with the same bytes. */
  ghost predicate Kept(was: seq<(PageTree.Page, PageTree.Leaf)>, wasRam: Ram,
                       done: seq<(PageTree.Page, PageTree.Leaf)>, ram: Ram) {
    && |was| <= |done| && done[..|was|] == was
    && forall k :: 0 <= k < |was| ==>
         var f := PageTree.Frame(was[k].1.base); f in wasRam ==> f in ram && ram[f] == wasRam[f]
  }

  lemma KeptPages(was: seq<(PageTree.Page, PageTree.Leaf)>, wasRam: Ram, done: seq<(PageTree.Page, PageTree.Leaf)>,
                  ram: Ram,
                  src: Source, seg: Phdr, first: nat, n: nat)
    requires Kept(was, wasRam, done, ram) && PagesLoaded(was, wasRam, src, seg, first, n)
    ensures PagesLoaded(done, ram, src, seg, first, n)
  {
    forall i: nat | i < n ensures PageIs(done, ram, src, seg, StartPage(seg) + i * PAGE_SIZE, first + i) {
      assert PageIs(was, wasRam, src, seg, StartPage(seg) + i * PAGE_SIZE, first + i);
      assert done[first + i] == done[..|was|][first + i];
    }
  }

  lemma KeptTrans(a: seq<(PageTree.Page, PageTree.Leaf)>, ra: Ram, b: seq<(PageTree.Page, PageTree.Leaf)>, rb: Ram,
                  c: seq<(PageTree.Page, PageTree.Leaf)>, rc: Ram)
    requires Kept(a, ra, b, rb) && Kept(b, rb, c, rc)
    ensures Kept(a, ra, c, rc)
  {
    assert c[..|a|] == c[..|b|][..|a|];
    forall k | 0 <= k < |a| && PageTree.Frame(a[k].1.base) in ra
      ensures PageTree.Frame(a[k].1.base) in rc && rc[PageTree.Frame(a[k].1.base)] == ra[PageTree.Frame(a[k].1.base)]
    {
      assert b[k] == b[..|a|][k];
    }
  }

  /** One more page: the frame was free, so the pages mapped before are kept. */
  lemma OnePage(done: seq<(PageTree.Page, PageTree.Leaf)>, frames: seq<Word>, ram: Ram, leaf: PageTree.Leaf,
                data: seq<Byte>,
                src: Source, seg: Phdr, va: nat)
    requires RamOk(done, frames, ram) && frames != [] && leaf == PageTree.Leaf(0, frames[0], MapFlags(seg.flags))
    requires Untouched(frames, ram, src.stale) && PageHolds(src.file, seg, va, data, ram[PageTree.Frame(frames[0])])
    ensures var done', ram' := done + [(PageTree.PageOf(va), leaf)], ram[PageTree.Frame(frames[0]) := data];
            RamOk(done', frames[1..], ram') && Untouched(frames[1..], ram', src.stale) && Kept(done, ram, done', ram')
                && PageIs(done', ram', src, seg, va, |done|)
  {
    FrameTaken(done, frames, ram, PageTree.PageOf(va), leaf, data);
  }

  // ----- the loader

  /** Failed: the code cleans up and returns NULL. Panic: pte_map on a page that is mapped. Fault: vfs_read as
      written. NoTables: no page is left for pte_map's tables, which the code does not check. */
  datatype Outcome = Loaded | Failed | Panic | Fault | NoTables

  class Task {
    const tables: PageTable.PageTables // task->user_pte
    const files: Vfs.FileCache
    const image: nat // the node of the program
    var ram: Ram
    var frames: seq<Word> // what pmem_alloc(0) will return
    ghost const base: PageTree.Mem // the tables before the segments
    ghost const stale: Ram // what the frames held then
    ghost const supply: nat // the frames that were free then
    ghost const poolStart: nat // the pages there were for tables
    ghost var done: seq<(PageTree.Page, PageTree.Leaf)> // the pages mapped for segments

    ghost predicate Valid()
      reads this, tables, files`used, files`free, files`trace, files.v.cache, files.v.cache.flags, files.v.cache.sidx,
            files.v.cache.data
      reads files.v.cache.links.prev, files.v.cache.links.next
    {
      && tables.Valid() && PageTable.Added(base, tables.mem, tables.root, done)
      && files.Valid() && image < |files.nodes| && |files.contents| == |files.nodes|
      && RamOk(done, frames, ram) && Untouched(frames, ram, stale) && ram.Keys !! tables.Owned()
      && PagesDistinct(done) && |frames| + |done| == supply && |tables.pool| + 2 * |done| >= poolStart
    }

    ghost function Src(): Source {
      Source(File(), stale)
    }

    ghost function File(): seq<Byte> {
      if image < |files.contents| then files.contents[image] else []
    }

    constructor (t: PageTable.PageTables, f: Vfs.FileCache, node: nat, memory: Ram, pages: seq<Word>)
      requires t.Valid() && f.Valid() && node < |f.nodes| && RamOk([], pages, memory)
      requires memory.Keys !! t.Owned() // no frame is a page of the tables, or can become one
      ensures Valid() && tables == t && files == f && image == node && ram == memory && frames == pages
      ensures done == [] && base == t.mem && stale == memory && supply == |pages| && poolStart == |t.pool|
    {
      tables, files, image, ram, frames := t, f, node, memory, pages;
      done, base, stale, supply, poolStart := [], t.mem, memory, |pages|, |t.pool|;
    }

    /** Why loading the pages stopped: `good` says that the headers and the file allow it. */
    ghost predicate Explained(r: Outcome, pages: seq<nat>, good: bool)
      reads tables`root
    {
      match r
      case Loaded => true
      case Failed => supply < |pages| || !good
      case Panic => !PagesFree(base, tables.root, pages)
      case Fault => files.reading.AsWritten?
      case NoTables => poolStart < 2 * |pages|
    }

    // task_add_page, before the page is filled
    method AddPage(va: nat, flags: Word) returns (r: Outcome, pa: Word)
      requires tables.Valid() && PageTable.Added(base, tables.mem, tables.root, done) && RamOk(done, frames, ram)
               && LeafFlags(flags)
      modifies tables`mem, tables`pool, this`frames
      ensures tables.Owned() == old(tables.Owned()) && |tables.pool| + 2 >= |old(tables.pool)|
      ensures r.Loaded? ==>
                && tables.Valid() && old(frames) != [] && pa == old(frames)[0] && frames == old(frames)[1..]
                && PageTable.Added(base, tables.mem, tables.root,
                                   done + [(PageTree.PageOf(va), PageTree.Leaf(0, pa, flags))])
      ensures r.Loaded? || r.Panic? ==>
                (r.Panic? <==> PageTree.Lookup(old(tables.mem), tables.root, PageTree.PageOf(va)).Some?)
      ensures r.Failed? <==> old(frames) == []
      ensures r.NoTables? ==> |old(tables.pool)| < 2
      ensures r != Fault
    {
      pa := 0;
      if frames == [] {
        return Failed, pa;
      }
      if |tables.pool| < 2 {
        return NoTables, pa;
      }
      pa := frames[0];
      frames := frames[1..];
      var panic := tables.MapPage(base, done, va, pa, flags);
      r := if panic then Panic else Loaded;
    }

    // vfs_read of exactly len bytes
    method ReadExactly(at: nat, len: nat) returns (r: Outcome, part: seq<Byte>)
      requires files.Valid() && image < |files.nodes| && |files.contents| == |files.nodes| && len > 0
      modifies files`used, files`free, files`trace, files.v.cache`disk, files.v.cache`lru, files.v.cache`trace
      modifies files.v.cache.flags, files.v.cache.sidx, files.v.cache.data
      modifies files.v.cache.links.prev, files.v.cache.links.next
      ensures files.Valid() && (r.Fault? ==> files.reading.AsWritten?)
      ensures r.Loaded? || r.Failed? || r.Fault?
      ensures r.Loaded? ==> at + len <= |File()| && part == File()[at..at + len]
      ensures r.Failed? ==> at + len > |File()|
    {
      hide Vfs.FileCache.Valid;
      part := [];
      var bytes := files.Read(image, at, len);
      if bytes.None? {
        r := Fault;
      } else if |bytes.value| != len {
        r := Failed;
        PartMissing(File(), at, len, bytes.value);
      } else {
        r, part := Loaded, bytes.value;
        PartRead(File(), at, len, part);
      }
    }

    // lines 240-247: what the page at va holds afterwards, and how far the segment is then
    method FillPage(seg: Phdr, va: nat, cnt: nat, o: nat, page: seq<Byte>)
      returns (r: Outcome, data: seq<Byte>, cnt': nat, o': nat)
      requires files.Valid() && image < |files.nodes| && |files.contents| == |files.nodes|
      requires Progressed(seg, va, cnt, o) && |page| == PAGE_SIZE
      modifies files`used, files`free, files`trace, files.v.cache`disk, files.v.cache`lru, files.v.cache`trace
      modifies files.v.cache.flags, files.v.cache.sidx, files.v.cache.data
      modifies files.v.cache.links.prev, files.v.cache.links.next
      ensures files.Valid() && (r.Fault? ==> files.reading.AsWritten?)
      ensures r.Loaded? || r.Failed? || r.Fault?
      ensures r.Loaded? ==>
                PageHolds(File(), seg, va, data, page) && Progressed(seg, va + PAGE_SIZE, cnt', o')
                    && |data| == PAGE_SIZE
      ensures r.Failed? ==> !Covered(File(), seg)
    {
      hide Vfs.FileCache.Valid, PageHolds, Progressed, Overlay;
      r, data, cnt', o' := Loaded, page, cnt, o;
      OffsetBound(seg, va, cnt, o);
      if cnt < seg.filesz {
        var want := Min(seg.filesz - cnt, PAGE_SIZE - o);
        var part;
        r, part := ReadExactly(seg.offset + cnt, want);
        data := Overlay(data, o, part);
        cnt', o' := cnt + want, 0;
      }
      if r.Loaded? { PageFilled(File(), seg, va, cnt, o, page, cnt' - cnt, data); }
    }

    // lines 235-247: the page at va
    method LoadPage(seg: Phdr, va: nat, cnt: nat, o: nat, ghost pages: seq<nat>)
      returns (r: Outcome, cnt': nat, o': nat)
      requires Valid() && MapFlags(seg.flags) != 0 && Progressed(seg, va, cnt, o)
      requires FirstPages(done, pages) && |done| < |pages| && pages[|done|] == va
      modifies this`ram, this`frames, this`done, tables`mem, tables`pool
      modifies files`used, files`free, files`trace, files.v.cache`disk, files.v.cache`lru, files.v.cache`trace
      modifies files.v.cache.flags, files.v.cache.sidx, files.v.cache.data
      modifies files.v.cache.links.prev, files.v.cache.links.next
      ensures r.Loaded? ==>
                && Valid() && Progressed(seg, va + PAGE_SIZE, cnt', o') && Kept(old(done), old(ram), done, ram)
                && |done| == |old(done)| + 1 && PageIs(done, ram, Src(), seg, va, |old(done)|)
                   && FirstPages(done, pages)
      ensures Explained(r, pages, Covered(File(), seg))
    {
      hide Vfs.FileCache.Valid, PageTable.PageTables.Valid, PageTable.PageTables.Owned, PageTable.Added,
        PageTree.PageOf, PageTree.Lookup, PageHolds, PageIs, MapFlags, LeafFlags, Progressed, Kept, RamOk, Untouched,
        PagesFree, PagesDistinct, FirstPages, Covered;
      MapFlagsRight(seg.flags);
      ClashMeans(base, tables.mem, tables.root, done, pages);
      cnt', o' := cnt, o;
      var pa;
      r, pa := AddPage(va, MapFlags(seg.flags));
      if !r.Loaded? {
        return;
      }
      FrameThere(done, old(frames), ram);
      var data;
      r, data, cnt', o' := FillPage(seg, va, cnt, o, ram[PageTree.Frame(pa)]);
      if !r.Loaded? {
        return;
      }
      OnePage(done, old(frames), ram, PageTree.Leaf(0, pa, MapFlags(seg.flags)), data, Src(), seg, va);
      OneMore(base, old(tables.mem), tables.root, done, pages, PageTree.Leaf(0, pa, MapFlags(seg.flags)));
      ram := ram[PageTree.Frame(pa) := data];
      done := done + [(PageTree.PageOf(va), PageTree.Leaf(0, pa, MapFlags(seg.flags)))];
    }

    // lines 224-248: the pages of one segment
    method LoadSegment(seg: Phdr, ghost pages: seq<nat>) returns (r: Outcome)
      requires Valid() && WellFormed(seg) && MapFlags(seg.flags) != 0
      requires FirstPages(done, pages) && Fits(pages, |done|, seg)
      modifies this`ram, this`frames, this`done, tables`mem, tables`pool
      modifies files`used, files`free, files`trace, files.v.cache`disk, files.v.cache`lru, files.v.cache`trace
      modifies files.v.cache.flags, files.v.cache.sidx, files.v.cache.data
      modifies files.v.cache.links.prev, files.v.cache.links.next
      ensures r.Loaded? ==>
                && Valid() && Kept(old(done), old(ram), done, ram) && FirstPages(done, pages)
                && PagesLoaded(done, ram, Src(), seg, |old(done)|, PageCount(seg))
                   && |done| == |old(done)| + PageCount(seg)
      ensures Explained(r, pages, Covered(File(), seg))
    {
      hide Valid, Kept, PagesLoaded, Explained, FirstPages;
      var endVa := seg.vaddr + seg.memsz - 1;
      var va: nat, endPg := StartPage(seg), endVa - endVa % PAGE_SIZE;
      var cnt: nat, o: nat := 0, seg.vaddr % PAGE_SIZE;
      ghost var i: nat := 0;
      r := Loaded;
      NoPages(done, ram, Src(), seg, |done|);
      PageRange(seg);
      NotStopped(pages, Covered(File(), seg));
      while va <= endPg
        invariant Valid() && Progressed(seg, va, cnt, o) && va == StartPage(seg) + i * PAGE_SIZE && i <= PageCount(seg)
        invariant |done| == |old(done)| + i && Kept(old(done), old(ram), done, ram) && FirstPages(done, pages)
        invariant PagesLoaded(done, ram, Src(), seg, |old(done)|, i) && r.Loaded?
        decreases PageCount(seg) - i
      {
        ghost var was, wasRam := done, ram;
        r, cnt, o := LoadPage(seg, va, cnt, o, pages);
        if !r.Loaded? {
          return;
        }
        KeptTrans(old(done), old(ram), was, wasRam, done, ram);
        MorePages(was, wasRam, done, ram, Src(), seg, |old(done)|, i);
        va := va + PAGE_SIZE;
        i := i + 1;
      }
    }

    lemma NotStopped(pages: seq<nat>, good: bool)
      ensures Explained(Loaded, pages, good)
    {}

    // lines 207-248: one program header
    method LoadHeader(seg: Phdr, ghost pages: seq<nat>) returns (r: Outcome)
      requires Valid() && (Loadable(seg) ==> WellFormed(seg) && Fits(pages, |done|, seg)) && FirstPages(done, pages)
      modifies this`ram, this`frames, this`done, tables`mem, tables`pool
      modifies files`used, files`free, files`trace, files.v.cache`disk, files.v.cache`lru, files.v.cache`trace
      modifies files.v.cache.flags, files.v.cache.sidx, files.v.cache.data
      modifies files.v.cache.links.prev, files.v.cache.links.next
      ensures r.Loaded? ==> Valid() && HeaderDone(old(done), old(ram), done, ram, Src(), seg) && FirstPages(done, pages)
      ensures r.Loaded? ==> HeaderOk(File(), seg)
      ensures Explained(r, pages, HeaderOk(File(), seg))
    {
      hide Valid, Kept, PagesLoaded, FirstPages, Fits, PagesFree, Covered;
      SkippedHeader(done, ram, Src(), seg);
      if seg.ptype != PT_LOAD {
        return Loaded;
      }
      if seg.align != PAGE_SIZE || MapFlags(seg.flags) == 0 {
        return Failed;
      }
      ghost var first := |done|;
      r := LoadSegment(seg, pages);
      if r.Loaded? { LoadedCovers(done, ram, Src(), seg, first); }
    }

    /** The loop over the program headers: each is processed once, in order; every page of every loadable
        segment is mapped with the segment's flags and holds its bytes, and no other page is mapped. Unless
        vfs_read faults or the pages for tables run out, loading succeeds exactly when the headers are in the
        file and right, the file covers its segments, there are frames enough, and the pages are distinct and
        not mapped yet. */
    method LoadImage(phoff: nat, phnum: nat) returns (r: Outcome)
      requires Valid() && done == []
      requires forall i: nat :: i < phnum && Loadable(Header(File(), phoff, i)) ==> WellFormed(Header(File(), phoff, i))
      modifies this`ram, this`frames, this`done, tables`mem, tables`pool
      modifies files`used, files`free, files`trace, files.v.cache`disk, files.v.cache`lru, files.v.cache`trace
      modifies files.v.cache.flags, files.v.cache.sidx, files.v.cache.data
      modifies files.v.cache.links.prev, files.v.cache.links.next
      ensures r.Loaded? ==> Valid() && ImageLoaded(done, ram, Src(), phoff, phnum)
      ensures r != Fault && r != NoTables ==>
                (r.Loaded? <==> && ImageOk(File(), phoff, phnum) && PagesBefore(File(), phoff, phnum) <= supply
                                && PagesFree(base, tables.root, ImagePages(File(), phoff, phnum)))
      ensures Explained(r, ImagePages(File(), phoff, phnum), ImageOk(File(), phoff, phnum))
    {
      hide Valid, ImageLoaded, Header, Explained, ImagePages, FirstPages, PagesFree, HeadersOk;
      var phcnt: nat, offset: nat := 0, phoff;
      ghost var pages := ImagePages(File(), phoff, phnum);
      r := Loaded;
      ImageStarts(ram, Src(), phoff);
      NonePages(pages);
      NoneChecked(File(), phoff);
      NotStopped(pages, ImageOk(File(), phoff, phnum));
      while phcnt != phnum
        invariant Valid() && phcnt <= phnum && offset == phoff + PHDR_SIZE * phcnt && r.Loaded?
        invariant ImageLoaded(done, ram, Src(), phoff, phcnt) && FirstPages(done, pages)
                  && HeadersOk(File(), phoff, phcnt)
        invariant phcnt > 0 ==> offset <= |File()|
        decreases phnum - phcnt
      {
        var toLoad := Min(phnum - phcnt, ONCE);
        r := LoadBatch(phoff, phcnt, toLoad, offset, phnum);
        if !r.Loaded? {
          Stopped(r, pages, ImageOk(File(), phoff, phnum));
          return;
        }
        offset := offset + PHDR_SIZE * toLoad;
        phcnt := phcnt + toLoad;
      }
      AllFit(phoff, phnum);
    }

    lemma Stopped(r: Outcome, pages: seq<nat>, good: bool)
      requires Explained(r, pages, good) && !r.Loaded?
      ensures r.Failed? || r.Panic? ==> !good || |pages| > supply || !PagesFree(base, tables.root, pages)
    {}

    /** The conditions hold once everything is loaded. */
    lemma {:induction false} AllFit(phoff: nat, phnum: nat)
      requires Valid() && ImageLoaded(done, ram, Src(), phoff, phnum)
               && FirstPages(done, ImagePages(File(), phoff, phnum))
      ensures PagesBefore(File(), phoff, phnum) <= supply
      ensures PagesFree(base, tables.root, ImagePages(File(), phoff, phnum))
    {
      AddedFree(base, tables.mem, tables.root, done, ImagePages(File(), phoff, phnum));
    }

    // lines 200-250: the headers of one read
    method LoadBatch(ghost phoff: nat, ghost phcnt: nat, toLoad: nat, offset: nat,
                     ghost phnum: nat) returns (r: Outcome)
      requires Valid() && ImageLoaded(done, ram, Src(), phoff, phcnt) && offset == phoff + PHDR_SIZE * phcnt
               && toLoad > 0
      requires phcnt + toLoad <= phnum && HeadersOk(File(), phoff, phcnt)
      requires FirstPages(done, ImagePages(File(), phoff, phnum))
      requires forall i: nat :: i < phnum && Loadable(Header(File(), phoff, i)) ==> WellFormed(Header(File(), phoff, i))
      modifies this`ram, this`frames, this`done, tables`mem, tables`pool
      modifies files`used, files`free, files`trace, files.v.cache`disk, files.v.cache`lru, files.v.cache`trace
      modifies files.v.cache.flags, files.v.cache.sidx, files.v.cache.data
      modifies files.v.cache.links.prev, files.v.cache.links.next
      ensures r.Loaded? ==> Valid() && ImageLoaded(done, ram, Src(), phoff, phcnt + toLoad)
      ensures r.Loaded? ==>
                FirstPages(done, ImagePages(File(), phoff, phnum)) && HeadersOk(File(), phoff, phcnt + toLoad)
      ensures r.Loaded? ==> offset + PHDR_SIZE * toLoad <= |File()|
      ensures Explained(r, ImagePages(File(), phoff, phnum), ImageOk(File(), phoff, phnum))
    {
      hide Valid, ImageLoaded, Header, Parse, HeaderDone, Explained, ImagePages, FirstPages, HeadersOk, ImageOk;
      ghost var pages := ImagePages(File(), phoff, phnum);
      var phdrs;
      r, phdrs := ReadHeaders(toLoad, offset);
      ShortFile(r, pages, phoff, phcnt, toLoad, phnum);
      var i: nat := 0;
      while i < toLoad && r.Loaded?
        invariant r.Loaded? ==>
                  offset + PHDR_SIZE * toLoad <= |File()| && phdrs == File()[offset..offset + PHDR_SIZE * toLoad]
        invariant r.Loaded? ==> Valid() && i <= toLoad && ImageLoaded(done, ram, Src(), phoff, phcnt + i)
        invariant r.Loaded? ==> FirstPages(done, pages) && HeadersOk(File(), phoff, phcnt + i)
        invariant Explained(r, pages, ImageOk(File(), phoff, phnum))
        decreases toLoad - i
      {
        ParseSlice(File(), offset, PHDR_SIZE * toLoad, phdrs, PHDR_SIZE * i);
        HeaderAt(File(), phoff, phcnt, i, offset);
        r := LoadNext(phoff, phcnt + i, Parse(phdrs, PHDR_SIZE * i), phnum);
        i := i + 1;
      }
    }

    lemma ShortFile(r: Outcome, pages: seq<nat>, phoff: nat, phcnt: nat, toLoad: nat, phnum: nat)
      requires r.Loaded? || r.Failed? || r.Fault?
      requires r.Fault? ==> files.reading.AsWritten?
      requires r.Failed? ==> phoff + PHDR_SIZE * phcnt + PHDR_SIZE * toLoad > |File()|
      requires phcnt + toLoad <= phnum && toLoad > 0
      ensures Explained(r, pages, ImageOk(File(), phoff, phnum))
    {}

    method LoadNext(ghost phoff: nat, ghost n: nat, seg: Phdr, ghost phnum: nat) returns (r: Outcome)
      requires Valid() && ImageLoaded(done, ram, Src(), phoff, n) && seg == Header(File(), phoff, n)
               && (Loadable(seg) ==> WellFormed(seg))
      requires n < phnum && HeadersOk(File(), phoff, n) && FirstPages(done, ImagePages(File(), phoff, phnum))
      modifies this`ram, this`frames, this`done, tables`mem, tables`pool
      modifies files`used, files`free, files`trace, files.v.cache`disk, files.v.cache`lru, files.v.cache`trace
      modifies files.v.cache.flags, files.v.cache.sidx, files.v.cache.data
      modifies files.v.cache.links.prev, files.v.cache.links.next
      ensures r.Loaded? ==> Valid() && ImageLoaded(done, ram, Src(), phoff, n + 1)
      ensures r.Loaded? ==> FirstPages(done, ImagePages(File(), phoff, phnum)) && HeadersOk(File(), phoff, n + 1)
      ensures Explained(r, ImagePages(File(), phoff, phnum), ImageOk(File(), phoff, phnum))
    {
      HeaderFits(File(), phoff, n, phnum, |done|);
      ImageCount(done, ram, Src(), phoff, n);
      hide Valid, ImageLoaded, Header, Parse, HeaderDone, FirstPages, ImagePages, Fits, PagesFree, HeaderOk,
          PagesBefore;
      ghost var was, wasRam := done, ram;
      r := LoadHeader(seg, ImagePages(File(), phoff, phnum));
      if r.Loaded? { ImageStep(was, wasRam, done, ram, Src(), phoff, n); }
    }

    // lines 200-204
    method ReadHeaders(toLoad: nat, offset: nat) returns (r: Outcome, phdrs: seq<Byte>)
      requires Valid() && toLoad > 0
      modifies files`used, files`free, files`trace, files.v.cache`disk, files.v.cache`lru, files.v.cache`trace
      modifies files.v.cache.flags, files.v.cache.sidx, files.v.cache.data
      modifies files.v.cache.links.prev, files.v.cache.links.next
      ensures Valid() && (r.Fault? ==> files.reading.AsWritten?)
      ensures r.Loaded? || r.Failed? || r.Fault?
      ensures r.Loaded? ==>
                offset + PHDR_SIZE * toLoad <= |File()| && phdrs == File()[offset..offset + PHDR_SIZE * toLoad]
      ensures r.Failed? ==> offset + PHDR_SIZE * toLoad > |File()|
    {
      hide Vfs.FileCache.Valid, PageTable.PageTables.Valid, PageTable.PageTables.Owned, PageTable.Added, RamOk;
      r, phdrs := ReadExactly(offset, PHDR_SIZE * toLoad);
    }
  }

  const ONCE: nat := PAGE_SIZE / PHDR_SIZE // once_load

  predicate Loadable(seg: Phdr) {
    seg.ptype == PT_LOAD
  }

  function Header(file: seq<Byte>, phoff: nat, i: nat): Phdr {
    Parse(file, phoff + PHDR_SIZE * i)
  }

  function PageAddress(seg: Phdr, i: nat): nat {
    StartPage(seg) + i * PAGE_SIZE
  }

  /** The pages of a segment, by address. */
  function SegmentPages(seg: Phdr): seq<nat> {
    if Loadable(seg) && seg.memsz >= 1 then seq(PageCount(seg), i requires 0 <= i => PageAddress(seg, i)) else []
  }

  /** The pages of the loadable segments of the first n headers, in order. */
  function ImagePages(file: seq<Byte>, phoff: nat, n: nat): seq<nat> {
    if n == 0 then [] else ImagePages(file, phoff, n - 1) + SegmentPages(Header(file, phoff, n - 1))
  }

  function PagesBefore(file: seq<Byte>, phoff: nat, n: nat): nat {
    |ImagePages(file, phoff, n)|
  }

  /** Pages not mapped yet, all different. */
  ghost predicate PagesFree(m: PageTree.Mem, root: Word, pages: seq<nat>) {
    && (forall k :: 0 <= k < |pages| ==> PageTree.Lookup(m, root, PageTree.PageOf(pages[k])) == None)
    && (forall j, k :: 0 <= j < k < |pages| ==> PageTree.PageOf(pages[j]) != PageTree.PageOf(pages[k]))
  }

  /** The pages mapped are the first ones of the list. */
  ghost predicate FirstPages(done: seq<(PageTree.Page, PageTree.Leaf)>, pages: seq<nat>) {
    |done| <= |pages| && forall k :: 0 <= k < |done| ==> done[k].0 == PageTree.PageOf(pages[k])
  }

  ghost predicate PagesDistinct(done: seq<(PageTree.Page, PageTree.Leaf)>) {
    forall j, k :: 0 <= j < k < |done| ==> done[j].0 != done[k].0
  }

  /** The pages of the segment are the next ones of the list. */
  ghost predicate Fits(pages: seq<nat>, first: nat, seg: Phdr)
    requires seg.memsz >= 1
  {
    first + PageCount(seg) <= |pages| && forall i: nat :: i < PageCount(seg) ==>
        pages[first + i] == StartPage(seg) + i * PAGE_SIZE
  }

  /** The file has all bytes of the segment that come from it. */
  predicate Covered(file: seq<Byte>, seg: Phdr) {
    seg.filesz > 0 ==> seg.offset + seg.filesz <= |file|
  }

  predicate HeaderOk(file: seq<Byte>, seg: Phdr) {
    Loadable(seg) ==> seg.align == PAGE_SIZE && MapFlags(seg.flags) != 0 && Covered(file, seg)
  }

  ghost predicate HeadersOk(file: seq<Byte>, phoff: nat, n: nat) {
    forall i: nat :: i < n ==> HeaderOk(file, Header(file, phoff, i))
  }

  /** The headers are in the file and right, and the file covers the segments. */
  ghost predicate ImageOk(file: seq<Byte>, phoff: nat, n: nat) {
    (n > 0 ==> phoff + PHDR_SIZE * n <= |file|) && HeadersOk(file, phoff, n)
  }

  lemma FrameThere(done: seq<(PageTree.Page, PageTree.Leaf)>, frames: seq<Word>, ram: Ram)
    requires RamOk(done, frames, ram) && frames != []
    ensures PageTree.Frame(frames[0]) in ram && |ram[PageTree.Frame(frames[0])]| == PAGE_SIZE
  {}

  /** A mapped page among the next ones was mapped before, or comes twice. */
  lemma ClashMeans(m0: PageTree.Mem, m: PageTree.Mem, root: Word, done: seq<(PageTree.Page, PageTree.Leaf)>,
                   pages: seq<nat>)
    requires PageTable.Added(m0, m, root, done) && FirstPages(done, pages) && |done| < |pages|
    ensures PageTree.Lookup(m, root, PageTree.PageOf(pages[|done|])).Some? ==> !PagesFree(m0, root, pages)
  {
    var q := PageTree.PageOf(pages[|done|]);
    hide PageTree.Lookup, PageTree.PageOf;
    IsPage(pages[|done|]);
    if PagesFree(m0, root, pages) {
      assert forall k :: 0 <= k < |done| ==> done[k].0 != q;
    }
  }

  lemma IsPage(va: nat)
    ensures PageTree.PageOk(PageTree.PageOf(va))
  {}

  /** One more page that was not mapped. */
  lemma OneMore(m0: PageTree.Mem, m: PageTree.Mem, root: Word, done: seq<(PageTree.Page, PageTree.Leaf)>,
                pages: seq<nat>, leaf: PageTree.Leaf)
    requires PageTable.Added(m0, m, root, done) && FirstPages(done, pages) && |done| < |pages| && PagesDistinct(done)
    requires PageTree.Lookup(m, root, PageTree.PageOf(pages[|done|])).None?
    ensures FirstPages(done + [(PageTree.PageOf(pages[|done|]), leaf)], pages)
    ensures PagesDistinct(done + [(PageTree.PageOf(pages[|done|]), leaf)])
  {
    hide PageTree.Lookup, PageTree.PageOf;
  }

  lemma AddedFree(m0: PageTree.Mem, m: PageTree.Mem, root: Word, done: seq<(PageTree.Page, PageTree.Leaf)>,
                  pages: seq<nat>)
    requires PageTable.Added(m0, m, root, done) && FirstPages(done, pages) && |done| == |pages| && PagesDistinct(done)
    ensures PagesFree(m0, root, pages)
  {
    hide PageTree.Lookup, PageTree.PageOf;
  }

  lemma NoneChecked(file: seq<Byte>, phoff: nat)
    ensures HeadersOk(file, phoff, 0)
  {}

  lemma NonePages(pages: seq<nat>)
    ensures FirstPages([], pages)
  {}

  /** A loaded segment's last file byte is in the file. */
  lemma LoadedCovers(done: seq<(PageTree.Page, PageTree.Leaf)>, ram: Ram, src: Source, seg: Phdr, first: nat)
    requires WellFormed(seg) && PagesLoaded(done, ram, src, seg, first, PageCount(seg))
    ensures Covered(src.file, seg)
  {
    if seg.filesz > 0 {
      var a := seg.vaddr + seg.filesz - 1;
      PageIndex(seg, a, a / PAGE_SIZE - seg.vaddr / PAGE_SIZE);
      var i: nat := a / PAGE_SIZE - seg.vaddr / PAGE_SIZE;
      var page := StartPage(seg) + i * PAGE_SIZE;
      assert PageIs(done, ram, src, seg, page, first + i);
      var f := PageTree.Frame(done[first + i].1.base);
      assert ByteRight(src.file, seg, page + a % PAGE_SIZE, ram[f][a % PAGE_SIZE], src.stale[f][a % PAGE_SIZE]);
    }
  }

  lemma {:induction false} PagesPrefix(file: seq<Byte>, phoff: nat, n: nat, m: nat)
    requires n <= m
    ensures |ImagePages(file, phoff, n)| <= |ImagePages(file, phoff, m)|
    ensures ImagePages(file, phoff, m)[..|ImagePages(file, phoff, n)|] == ImagePages(file, phoff, n)
    decreases m
  {
    hide Header, SegmentPages;
    if n < m {
      PagesPrefix(file, phoff, n, m - 1);
      var shorter := ImagePages(file, phoff, m - 1);
      var k := |ImagePages(file, phoff, n)|;
      assert (shorter + SegmentPages(Header(file, phoff, m - 1)))[..k] == shorter[..k];
    }
  }

  /** The pages of header n are the next ones of the list. */
  lemma {:induction false} HeaderFits(file: seq<Byte>, phoff: nat, n: nat, phnum: nat, first: nat)
    requires n < phnum && first == PagesBefore(file, phoff, n)
    ensures var seg := Header(file, phoff, n);
            Loadable(seg) && seg.memsz >= 1 ==> Fits(ImagePages(file, phoff, phnum), first, seg)
  {
    PagesPrefix(file, phoff, n + 1, phnum);
    var all, seg := ImagePages(file, phoff, phnum), Header(file, phoff, n);
    var upTo := ImagePages(file, phoff, n + 1);
    assert upTo == ImagePages(file, phoff, n) + SegmentPages(seg);
    if Loadable(seg) && seg.memsz >= 1 {
      forall i: nat | i < PageCount(seg) ensures all[first + i] == StartPage(seg) + i * PAGE_SIZE {
        assert all[..|upTo|][first + i] == upTo[first + i] == SegmentPages(seg)[i];
      }
    }
  }

  lemma ImageCount(done: seq<(PageTree.Page, PageTree.Leaf)>, ram: Ram, src: Source, phoff: nat, n: nat)
    requires ImageLoaded(done, ram, src, phoff, n)
    ensures |done| == PagesBefore(src.file, phoff, n)
  {}

  /** The mappings are exactly the pages of the loadable segments of the first n headers, in order. */
  ghost predicate ImageLoaded(done: seq<(PageTree.Page, PageTree.Leaf)>, ram: Ram, src: Source, phoff: nat, n: nat) {
    && |done| == PagesBefore(src.file, phoff, n)
    && forall i: nat :: i < n ==> HeaderLoaded(done, ram, src, phoff, i)
  }

  ghost predicate HeaderLoaded(done: seq<(PageTree.Page, PageTree.Leaf)>, ram: Ram, src: Source, phoff: nat, i: nat) {
    var seg := Header(src.file, phoff, i);
    Loadable(seg) ==> WellFormed(seg) && PagesLoaded(done, ram, src, seg, PagesBefore(src.file, phoff, i),
                                                     PageCount(seg))
  }

  ghost predicate HeaderDone(was: seq<(PageTree.Page, PageTree.Leaf)>, wasRam: Ram,
                             done: seq<(PageTree.Page, PageTree.Leaf)>, ram: Ram,
                             src: Source, seg: Phdr) {
    && Kept(was, wasRam, done, ram)
    && if Loadable(seg) then
         WellFormed(seg) && PagesLoaded(done, ram, src, seg, |was|, PageCount(seg)) && |done| == |was| + PageCount(seg)
       else done == was
  }

  lemma SkippedHeader(done: seq<(PageTree.Page, PageTree.Leaf)>, ram: Ram, src: Source, seg: Phdr)
    ensures !Loadable(seg) ==> HeaderDone(done, ram, done, ram, src, seg)
  {}

  lemma ImageStarts(ram: Ram, src: Source, phoff: nat)
    ensures ImageLoaded([], ram, src, phoff, 0)
  {}

  lemma {:induction false} PagesStep(file: seq<Byte>, phoff: nat, n: nat)
    ensures PagesBefore(file, phoff, 0) == 0
    ensures var seg := Header(file, phoff, n);
            PagesBefore(file, phoff, n + 1)
            == PagesBefore(file, phoff, n) + if Loadable(seg) && seg.memsz >= 1 then PageCount(seg) else 0
  {}

  lemma HeaderKept(was: seq<(PageTree.Page, PageTree.Leaf)>, wasRam: Ram, done: seq<(PageTree.Page, PageTree.Leaf)>,
                   ram: Ram,
                   src: Source, phoff: nat, i: nat)
    requires Kept(was, wasRam, done, ram) && HeaderLoaded(was, wasRam, src, phoff, i)
    ensures HeaderLoaded(done, ram, src, phoff, i)
  {
    hide PagesBefore, PagesLoaded, Kept, Header, PageCount;
    var seg := Header(src.file, phoff, i);
    if Loadable(seg) { KeptPages(was, wasRam, done, ram, src, seg, PagesBefore(src.file, phoff, i), PageCount(seg)); }
  }

  lemma ImageStep(was: seq<(PageTree.Page, PageTree.Leaf)>, wasRam: Ram, done: seq<(PageTree.Page, PageTree.Leaf)>,
                  ram: Ram,
                  src: Source, phoff: nat, n: nat)
    requires ImageLoaded(was, wasRam, src, phoff, n) && HeaderDone(was, wasRam, done, ram, src,
                                                                   Header(src.file, phoff, n))
    ensures ImageLoaded(done, ram, src, phoff, n + 1)
  {
    hide PagesBefore, PagesLoaded, Kept, Header, PageCount;
    PagesStep(src.file, phoff, n);
    forall i: nat | i < n + 1 ensures HeaderLoaded(done, ram, src, phoff, i) {
      if i < n { HeaderKept(was, wasRam, done, ram, src, phoff, i); }
    }
  }

  lemma HeaderAt(file: seq<Byte>, phoff: nat, n: nat, i: nat, offset: nat)
    requires offset == phoff + PHDR_SIZE * n
    ensures Header(file, phoff, n + i) == Parse(file, offset + PHDR_SIZE * i)
  {}

  /** Headers parsed from a part of the file are the file's. */
  lemma ParseSlice(file: seq<Byte>, at: nat, len: nat, part: seq<Byte>, i: nat)
    requires at + len <= |file| && part == file[at..at + len] && i + PHDR_SIZE <= len
    ensures Parse(part, i) == Parse(file, at + i)
  {
    forall k: nat | k + 3 < len ensures Le32(part, k) == Le32(file, at + k) { WordSlice(file, at, len, part, k); }
  }

  lemma WordSlice(file: seq<Byte>, at: nat, len: nat, part: seq<Byte>, k: nat)
    requires at + len <= |file| && part == file[at..at + len] && k + 3 < len
    ensures Le32(part, k) == Le32(file, at + k)
  {
    assert part[k] == file[at + k] && part[k + 1] == file[at + k + 1] && part[k + 2] == file[at + k + 2]
           && part[k + 3] == file[at + k + 3];
  }

  lemma NoPages(done: seq<(PageTree.Page, PageTree.Leaf)>, ram: Ram, src: Source, seg: Phdr, first: nat)
    ensures PagesLoaded(done, ram, src, seg, first, 0) && Kept(done, ram, done, ram)
  {}

  /** The loop of line 234 runs PageCount times. */
  lemma PageRange(seg: Phdr)
    requires WellFormed(seg)
    ensures Progressed(seg, StartPage(seg), 0, seg.vaddr % PAGE_SIZE)
    ensures var endVa := seg.vaddr + seg.memsz - 1;
            endVa - endVa % PAGE_SIZE == StartPage(seg) + (PageCount(seg) - 1) * PAGE_SIZE
  {}

  lemma MorePages(was: seq<(PageTree.Page, PageTree.Leaf)>, wasRam: Ram, done: seq<(PageTree.Page, PageTree.Leaf)>,
                  ram: Ram,
                  src: Source, seg: Phdr, first: nat, i: nat)
    requires Kept(was, wasRam, done, ram) && PagesLoaded(was, wasRam, src, seg, first, i)
    requires |was| == first + i && PageIs(done, ram, src, seg, StartPage(seg) + i * PAGE_SIZE, |was|)
    ensures PagesLoaded(done, ram, src, seg, first, i + 1)
  {
    KeptPages(was, wasRam, done, ram, src, seg, first, i);
  }

  // ----- what the program sees

  /** Every address of a loaded segment is mapped to a page with the segment's permissions. Reading it through
      the page table gives the file's byte wherever the file has one, and elsewhere the byte left in the frame:
      the code does not clear what lies between the file size and the memory size. */
  lemma SegmentReads(m0: PageTree.Mem, m: PageTree.Mem, root: Word, done: seq<(PageTree.Page, PageTree.Leaf)>, ram: Ram,
                     src: Source, seg: Phdr, first: nat, k: nat)
    requires PageTable.Added(m0, m, root, done) && WellFormed(seg)
             && PagesLoaded(done, ram, src, seg, first, PageCount(seg))
    requires k < seg.memsz && ram.Keys !! m.Keys
    ensures var t, a := PageTree.Lookup(m, root, PageTree.PageOf(seg.vaddr + k)), seg.vaddr + k;
            && t.Some? && t.value.size == 0 && t.value.flags == MapFlags(seg.flags)
            && var f := PageTree.Frame(t.value.base);
               && f in ram && f in src.stale && |ram[f]| == |src.stale[f]| == PAGE_SIZE && f !in m
               && if k < seg.filesz then seg.offset + k < |src.file|
                  && ram[f][a % PAGE_SIZE] == src.file[seg.offset + k]
                  else ram[f][a % PAGE_SIZE] == src.stale[f][a % PAGE_SIZE]
  {
    hide WellFormed, PageCount, StartPage, MapFlags;
    var a := seg.vaddr + k;
    PageIndex(seg, a, a / PAGE_SIZE - seg.vaddr / PAGE_SIZE);
    var i: nat := a / PAGE_SIZE - seg.vaddr / PAGE_SIZE;
    var page := StartPage(seg) + i * PAGE_SIZE;
    assert PageIs(done, ram, src, seg, page, first + i);
    PageTree.SamePage(a, page);
    var f := PageTree.Frame(done[first + i].1.base);
    assert ByteRight(src.file, seg, page + a % PAGE_SIZE, ram[f][a % PAGE_SIZE], src.stale[f][a % PAGE_SIZE]);
  }

  /** What reading address a through the page table gives, with these bytes in the frames. */
  function ReadAt(m: PageTree.Mem, root: Word, ram: Ram, a: nat): Option<Byte> {
    match PageTree.Lookup(m, root, PageTree.PageOf(a))
    case None => None
    case Some(l) =>
      var f := PageTree.Frame(l.base);
      if f in ram && a % PAGE_SIZE < |ram[f]| then Some(ram[f][a % PAGE_SIZE]) else None
  }

  /** The rest of a segment, past its file part, reads as zeros. */
  ghost predicate RestZero(m: PageTree.Mem, root: Word, ram: Ram, seg: Phdr) {
    forall a: nat :: seg.vaddr + seg.filesz <= a < seg.vaddr + seg.memsz ==> ReadAt(m, root, ram, a) == Some(0)
  }

  /** A loaded segment reads as zeros past its file part, as the ABI asks, exactly when its frames held zeros
      there. */
  lemma RestZeroIff(m0: PageTree.Mem, m: PageTree.Mem, root: Word, done: seq<(PageTree.Page, PageTree.Leaf)>, ram: Ram,
                    src: Source, seg: Phdr, first: nat)
    requires PageTable.Added(m0, m, root, done) && WellFormed(seg) && ram.Keys !! m.Keys
             && PagesLoaded(done, ram, src, seg, first, PageCount(seg))
    ensures RestZero(m, root, ram, seg) <==> RestZero(m, root, src.stale, seg)
  {
    hide PageTree.Lookup, PageTree.PageOf, PagesLoaded, PageCount, PageTable.Added;
    forall a: nat | seg.vaddr + seg.filesz <= a < seg.vaddr + seg.memsz
      ensures ReadAt(m, root, ram, a) == ReadAt(m, root, src.stale, a)
    {
      SegmentReads(m0, m, root, done, ram, src, seg, first, a - seg.vaddr);
    }
  }

  lemma PageIndex(seg: Phdr, a: nat, i: int)
    requires WellFormed(seg) && seg.vaddr <= a < seg.vaddr + seg.memsz && i == a / PAGE_SIZE - seg.vaddr / PAGE_SIZE
    ensures 0 <= i < PageCount(seg) && StartPage(seg) + i * PAGE_SIZE == a - a % PAGE_SIZE
  {
    DivLe(a, seg.vaddr + seg.memsz - 1);
    DivLe(seg.vaddr, a);
  }

  lemma DivLe(a: nat, b: nat)
    requires a <= b
    ensures a / PAGE_SIZE <= b / PAGE_SIZE
  {}
}
