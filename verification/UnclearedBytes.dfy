/** kernel/process.c:240 on a concrete program: a segment of eight bytes, four of them from the file. The other
    four read as what the frame held. */
module UnclearedBytes {
  import opened Defs
  import opened Collections
  import opened Readings
  import opened CacheState
  import opened FileData
  import opened FatLayout
  import opened FatVolume
  import opened SmallDisk
  import opened PageEntry
  import PageTree
  import PageTable
  import Vfs
  import opened Loader

  const EHDR_SIZE: nat := 64

  /** The ELF header of a RISC-V executable (kernel/process.c:22-80): entry 0x1000, one program header at 64. */
  function ElfByte(i: nat): Byte {
    if i == 0 then 0x7f
    else if i == 1 then 0x45
    else if i == 2 then 0x4c
    else if i == 3 then 0x46
    else if i == 4 || i == 16 then 2
    else if i == 5 || i == 6 || i == 20 || i == 56 then 1
    else if i == 18 then 243
    else if i == 25 then 0x10
    else if i == 32 || i == 52 then 64
    else if i == 54 then 56
    else 0
  }

  /** The program header: loadable, readable and writable, at 0x1000, from the start of the file. */
  function PhdrByte(i: nat): Byte {
    if i == 0 then 1
    else if i == 4 then 6
    else if i == 17 || i == 49 then 0x10
    else if i == 32 then 4
    else if i == 40 then 8
    else 0
  }

  const PROGRAM: Sector := seq(BYTES, i requires 0 <= i =>
    if i < EHDR_SIZE then ElfByte(i) else PhdrByte(i - EHDR_SIZE))

  const SIZE: nat := 120 // of the program: its two headers

  const DISK: Disk := [Boot(1, 3), ONE_EACH, PROGRAM, OneFile(SIZE)]

  const SMALL: Geometry := Small(1, 3)

  const SEGMENT: Phdr := Phdr(1, 6, 0, 0x1000, 4, 8, 0x1000)

  const FILES: seq<Vfs.Node> := [Vfs.Node(2, SIZE)]

  const TABLES: seq<Word> := [0x1_0000, 0x2_0000, 0x3_0000]

  const FRAME: Word := 0x4_0000

  /** What the one free frame holds. */
  const OLD: seq<Loader.Byte> := seq(PAGE_SIZE, _ => 0xaa)

  const MEMORY: Ram := map[PageTree.Frame(FRAME) := OLD]

  lemma DiskSized()
    ensures DiskOk(DISK, SMALL) && GeometryOk(SMALL)
  {}

  lemma FileIs()
    ensures GeometryOk(SMALL) && FileBytes(Data(DISK, SMALL, [2])) == PROGRAM
    ensures Vfs.FilesOk(DISK, SMALL, FILES, [[2]])
  {
    OneChain(DISK, 1, 3);
    var f := Data(DISK, SMALL, [2]);
    hide Clu2Sec;
    assert f[0] == [PROGRAM] && f[1..] == [];
    OneSector(f, PROGRAM);
  }

  lemma {:induction false} OneSector(f: File, s: Sector)
    requires |f| == 1 && f[0] == [s]
    ensures FileBytes(f) == s
  {
    assert f[1..] == [] && f[0][1..] == [];
    assert Join(f[0][1..]) == [];
  }

  lemma HeaderIs(file: seq<Loader.Byte>)
    requires file == PROGRAM[..SIZE]
    ensures Header(file, EHDR_SIZE, 0) == SEGMENT
  {
    hide Le32;
    Field(file, 0, 1, 0);
    Field(file, 4, 6, 0);
    Field(file, 8, 0, 0);
    Field(file, 12, 0, 0);
    Field(file, 16, 0, 0x10);
    Field(file, 20, 0, 0);
    Field(file, 32, 4, 0);
    Field(file, 36, 0, 0);
    Field(file, 40, 8, 0);
    Field(file, 44, 0, 0);
    Field(file, 48, 0, 0x10);
    Field(file, 52, 0, 0);
  }

  lemma Field(file: seq<Loader.Byte>, i: nat, a: nat, b: nat)
    requires file == PROGRAM[..SIZE] && i + 3 < PHDR_SIZE
    requires PhdrByte(i) == a && PhdrByte(i + 1) == b && PhdrByte(i + 2) == PhdrByte(i + 3) == 0
    ensures Le32(file, EHDR_SIZE + i) == a + 0x100 * b
  {
    hide PhdrByte, ElfByte;
    assert file[EHDR_SIZE + i] == PhdrByte(i) && file[EHDR_SIZE + i + 1] == PhdrByte(i + 1);
    assert file[EHDR_SIZE + i + 2] == PhdrByte(i + 2) && file[EHDR_SIZE + i + 3] == PhdrByte(i + 3);
  }

  lemma {:induction false} PagesAre(file: seq<Loader.Byte>)
    requires file == PROGRAM[..SIZE]
    ensures ImagePages(file, EHDR_SIZE, 1) == [0x1000] && ImageOk(file, EHDR_SIZE, 1)
  {
    hide Header, MapFlags;
    HeaderIs(file);
    MapFlagsRight(6);
    assert ImagePages(file, EHDR_SIZE, 0) == [];
    assert SegmentPages(SEGMENT) == [0x1000];
  }

  lemma MemoryOk()
    ensures PageTable.PoolOk(TABLES, map[]) && RamOk([], [FRAME], MEMORY)
    ensures PageTree.Frame(FRAME) !in PageTable.Frames(TABLES)
  {}

  // ----- the load

  /** The process before its program is loaded: two pages for tables, one frame. */
  method Prepare() returns (t: Task)
    ensures fresh(t) && fresh(t.tables) && fresh(t.files) && fresh(t.files.v.cache) && fresh(t.files.v.cache.flags)
    ensures fresh(t.files.v.cache.links.prev) && fresh(t.files.v.cache.links.next)
    ensures fresh(t.files.v.cache.sidx) && fresh(t.files.v.cache.data) && t.Valid() && t.files.reading == Intended
    ensures t.done == [] && t.stale == MEMORY && t.File() == PROGRAM[..SIZE] && t.supply == 1 && t.poolStart == 2
    ensures forall q :: PageTree.PageOk(q) ==> PageTree.Lookup(t.base, t.tables.root, q) == None
  {
    hide Volume.Valid, Volume.Plain, GeometryOf, StartOf, Vfs.FilesOk, FileBytes, Data, PageTree.Lookup,
        PageTree.PageOk;
    BootRead(1, 3);
    DiskSized();
    FileIs();
    MemoryOk();
    assert DISK[0..] == DISK;
    var v := Mount(DISK);
    var files := new Vfs.FileCache(v, Intended, 4, FILES, DISK, [[2]]);
    assert Vfs.NodeOk(files.d, files.v.g, files.nodes[0], files.chains[0], files.contents[0]);
    var tables := new PageTable.PageTables(TABLES);
    Owned(tables.mem, tables.pool);
    t := new Task(tables, files, 0, MEMORY, [FRAME]);
  }

  lemma Owned(m: PageTree.Mem, pool: seq<Word>)
    requires m.Keys == {PageTree.Frame(TABLES[0])} && pool == TABLES[1..]
    ensures MEMORY.Keys !! m.Keys + PageTable.Frames(pool)
  {}

  /** The load succeeds. Reading byte 4 of the segment, past its file part, gives 0xaa instead of zero. */
  method LoadAndRead() returns (r: Outcome, byte: Option<Loader.Byte>)
    ensures r == Loaded && byte == Some(0xaa)
  {
    hide Task.Valid, ImageOk, ImagePages, ImageLoaded, PagesFree, Header, Vfs.FileCache.Valid;
    var t := Prepare();
    PagesAre(t.File());
    HeaderIs(t.File());
    FreePage(t.base, t.tables.root);
    r := t.LoadImage(EHDR_SIZE, 1);
    assert r == Loaded;
    byte := Fetch(t, 0x1004);
    LastBytes(t);
  }

  lemma FreePage(m: PageTree.Mem, root: Word)
    requires forall q :: PageTree.PageOk(q) ==> PageTree.Lookup(m, root, q) == None
    ensures PagesFree(m, root, [0x1000])
  {
    IsPage(0x1000);
  }

  // a load by the program, through pte_walk
  method Fetch(t: Task, a: nat) returns (byte: Option<Loader.Byte>)
    requires t.Valid()
    ensures byte == ReadAt(t.tables.mem, t.tables.root, t.ram, a)
  {
    hide PageTree.Lookup, Vfs.FileCache.Valid, RamOk, Untouched, PageTable.Added;
    var base, flags, size := t.tables.PteWalk(a);
    var f := PageTree.Frame(base);
    byte := if flags & 1 == 1 && f in t.ram && a % PAGE_SIZE < |t.ram[f]| then Some(t.ram[f][a % PAGE_SIZE]) else None;
  }

  /** Byte 4 of the loaded segment is the one left in the frame. */
  lemma LastBytes(t: Task)
    requires t.Valid() && t.stale == MEMORY && t.File() == PROGRAM[..SIZE]
             && ImageLoaded(t.done, t.ram, t.Src(), EHDR_SIZE, 1)
    ensures ReadAt(t.tables.mem, t.tables.root, t.ram, 0x1004) == Some(0xaa)
  {
    hide PageTree.Lookup, Vfs.FileCache.Valid, RamOk, Untouched, PageTable.Added, ImagePages;
    HeaderIs(t.File());
    assert HeaderLoaded(t.done, t.ram, t.Src(), EHDR_SIZE, 0);
    NoPagesBefore(t.File());
    SegmentReads(t.base, t.tables.mem, t.tables.root, t.done, t.ram, t.Src(), SEGMENT, 0, 4);
  }

  lemma {:induction false} NoPagesBefore(file: seq<Loader.Byte>)
    ensures PagesBefore(file, EHDR_SIZE, 0) == 0
  {}
}
