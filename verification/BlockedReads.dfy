/** kernel/vfs.c:52 and 62 on a concrete disk: reads that fail as written, each from the mounting of the disk on. */
module BlockedReads {
  import opened Collections
  import opened Readings
  import opened CacheState
  import opened FileData
  import opened FatLayout
  import opened FatVolume
  import opened SmallDisk
  import opened Vfs

  const SECTORS: nat := 16 // of a cluster, 8 KiB

  /** The file holds zeros; the root directory is in cluster 3. */
  const DISK: Disk :=
    [Boot(SECTORS, 3), ONE_EACH] + seq(SECTORS, _ => ZEROS) + [OneFile(5000)] + seq(SECTORS - 1, _ => ZEROS)

  const LARGE: Geometry := Small(SECTORS, 3)

  /** A file of 5000 bytes, two blocks, in cluster 2. */
  const FILES: seq<Node> := [Node(2, 5000)]

  lemma DiskSized()
    ensures DISK[0] == Boot(SECTORS, 3) && DISK[1] == ONE_EACH
    ensures GeometryOk(LARGE) && DiskOk(DISK, LARGE) && |DISK| == 34
  {}

  /** The cluster covers the file. */
  lemma Covers()
    ensures GeometryOk(LARGE) && FilesOk(DISK, LARGE, FILES, [[2]])
  {
    hide IsChain, FileBytes, Data;
    DiskSized();
    OneChain(DISK, SECTORS, 3);
    DataShape(DISK, LARGE, 2, [2]);
    FileLength(Data(DISK, LARGE, [2]), SECTORS, BYTES, 8192);
  }

  /** What is missing of a file of which no block is buffered. */
  lemma {:induction false} AllMissing(used: seq<Blk>, node: nat, lo: nat, hi: nat)
    requires lo <= hi && forall b: nat :: !InCache(used, node, b)
    ensures Missing(used, node, lo, hi) == hi - lo
    decreases hi - lo
  {
    if lo < hi { AllMissing(used, node, lo, hi - 1); }
  }

  lemma SomeLeft(c: FileCache)
    requires c.Valid() && |c.contents| == 1 && c.used != []
    ensures exists b: nat :: InCache(c.used, 0, b)
  {
    var b := c.used[0];
    assert BlockOk(b, c.contents);
    assert Is(c.used[0], 0, b.blkoff);
    assert InCache(c.used, 0, b.blkoff);
  }

  /** A cache over the mounted disk. */
  method Open(reading: Reading, max: nat) returns (c: FileCache)
    requires max > 0
    ensures fresh(c) && fresh(c.v) && fresh(c.v.cache) && fresh(c.v.cache.flags) && fresh(c.v.cache.sidx)
    ensures fresh(c.v.cache.links.prev) && fresh(c.v.cache.links.next)
    ensures fresh(c.v.cache.data) && c.Valid() && c.reading == reading && c.max == max && c.nodes == FILES
    ensures c.used == [] && c.free == [] && |c.contents| == 1 && |c.contents[0]| == 5000
  {
    hide Volume.Valid, Volume.Plain, GeometryOf, StartOf, FilesOk;
    BootRead(SECTORS, 3);
    DiskSized();
    assert DISK[0..] == DISK;
    Covers();
    var v := Mount(DISK);
    c := new FileCache(v, reading, max, FILES, DISK, [[2]]);
    assert NodeOk(c.d, c.v.g, c.nodes[0], c.chains[0], c.contents[0]);
    SizeOf(c.d, c.v.g, c.nodes[0], c.chains[0], c.contents[0]);
  }

  /** Line 62: with room for one block, reading the file from its start fails at its second block. As intended it
      returns the file. */
  method NoRoom(reading: Reading) returns (r: Option<seq<Byte>>)
    ensures reading.AsWritten? ==> r == None
    ensures reading.Intended? ==> r.Some? && |r.value| == 5000
  {
    hide FileCache.Valid, Missing;
    var c := Open(reading, 1);
    AllMissing(c.used, 0, 0, 2);
    r := c.Read(0, 0, 5000);
  }

  /** Line 52: with room for two blocks, the first read returns the file; after its blocks were unbuffered, which
      leaves them on the free list, the second fails. */
  method FreeBlocks(reading: Reading) returns (first: Option<seq<Byte>>, second: Option<seq<Byte>>)
    ensures first.Some? && |first.value| == 5000
    ensures reading.AsWritten? ==> second == None
    ensures reading.Intended? ==> second == first
  {
    hide FileCache.Valid, Missing;
    var c := Open(reading, 2);
    AllMissing(c.used, 0, 0, 2);
    first := c.Read(0, 0, 5000);
    assert reading.AsWritten? ==> InCache(c.used, 0, 0);
    c.UnbufferAll(0);
    if c.used != [] { SomeLeft(c); }
    AllMissing(c.used, 0, 0, 2);
    second := c.Read(0, 0, 5000);
  }
}
