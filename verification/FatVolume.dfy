/** Reading chains, files and directories of a mounted FAT32 volume through its sector buffers. */
module FatVolume {
  import opened Defs
  import opened Readings
  import opened Collections
  import opened CacheState
  import opened FatLayout
  import opened FileData
  import SectorCache

  lemma SectorAt(c: Cache, s: nat)
    requires |c.flags| == |c.sidx| == |c.data| && s < |Contents(c)|
    ensures OnDisk(c, s) && Logical(c, s) == Contents(c)[s]
  {}

  /** The part of struct fat32_fs that reading uses. */
  class Volume {
    const cache: SectorCache.SectorBuffers
    const g: Geometry

    constructor (buffers: SectorCache.SectorBuffers, geometry: Geometry)
      ensures cache == buffers && g == geometry
    {
      cache, g := buffers, geometry;
    }

    /** The plain array of sectors behind the buffers. */
    ghost function Plain(): Disk
      reads cache, cache.flags, cache.sidx, cache.data
      reads cache.links.prev, cache.links.next
    {
      if cache.Ready() then Contents(cache.View()) else []
    }

    ghost predicate Valid()
      reads cache, cache.flags, cache.sidx, cache.data
      reads cache.links.prev, cache.links.next
    {
      cache.Valid() && GeometryOk(g) && g.bps == cache.bps && DiskOk(Plain(), g)
    }

    // fat32_bio_read
    method ReadSector(s: nat) returns (dat: Sector)
      requires Valid() && s < |Plain()|
      modifies cache`disk, cache`lru, cache`trace, cache.flags, cache.sidx, cache.data
      modifies cache.links.prev, cache.links.next
      ensures Valid() && Plain() == old(Plain()) && dat == Plain()[s] && |dat| == g.bps
    {
      ghost var c := cache.View();
      SectorAt(c, s);
      dat := cache.Read(s);
      SameContentsEqual(c, cache.View());
    }

    // fat32_get_chain
    method GetChain(c: nat) returns (next: nat)
      requires Valid() && EntrySector(g, c) < |Plain()|
      modifies cache`disk, cache`lru, cache`trace, cache.flags, cache.sidx, cache.data
      modifies cache.links.prev, cache.links.next
      ensures Valid() && Plain() == old(Plain()) && next == Next(Plain(), g, c)
    {
      var table := ReadSector(EntrySector(g, c));
      next := Le32(table, Mod(c, PerSector(g)) * 4);
    }

    // lines 570-572
    method SkipClusters(first: nat, count: nat, ghost d: Disk, ghost clusters: seq<nat>) returns (c: nat)
      requires Valid() && Plain() == d && IsChain(d, g, first, clusters) && count < |clusters|
      modifies cache`disk, cache`lru, cache`trace, cache.flags, cache.sidx, cache.data
      modifies cache.links.prev, cache.links.next
      ensures Valid() && Plain() == d && c == clusters[count]
    {
      c := first;
      var left := count;
      while left > 0
        invariant 0 <= left <= count && Valid() && Plain() == d && c == clusters[count - left]
      {
        assert Linked(d, g, clusters, count - left);
        c := GetChain(c);
        left := left - 1;
      }
    }

    // lines 578-584: sector j of cluster f[0], which is sector s of the volume
    method ReadPart(s: nat, o: nat, bufLen: nat, before: seq<Byte>,
                    ghost d: Disk, ghost f: File, ghost j: nat, ghost all: seq<Byte>)
      returns (buf: seq<Byte>, done: bool)
      requires Valid() && Plain() == d && s < |d| && o < g.bps && f != [] && j < |f[0]| && f[0][j] == d[s]
      requires Progress(f, j, o, bufLen, g.bps, before, false, all)
      modifies cache`disk, cache`lru, cache`trace, cache.flags, cache.sidx, cache.data
      modifies cache.links.prev, cache.links.next
      ensures Valid() && Plain() == d && Progress(f, j + 1, o, bufLen, g.bps, buf, done, all)
    {
      var dat := ReadSector(s);
      var len := Min(g.bps - o, bufLen - |before|);
      buf := before + dat[o..o + len];
      done := |buf| == bufLen;
      ProgressSector(f, j, o, bufLen, g.bps, before, buf, all);
    }

    // lines 577-585: the sectors of the cluster at sector sidx, from sector j on, each from byte o on
    method ReadCluster(sidx: nat, first: nat, o: nat, bufLen: nat, before: seq<Byte>,
                       ghost d: Disk, ghost f: File, ghost all: seq<Byte>)
      returns (buf: seq<Byte>, done: bool)
      requires Valid() && Plain() == d && f != [] && sidx + g.spc <= |d| && f[0] == d[sidx..sidx + g.spc] && o < g.bps
      requires Progress(f, first, o, bufLen, g.bps, before, false, all)
      modifies cache`disk, cache`lru, cache`trace, cache.flags, cache.sidx, cache.data
      modifies cache.links.prev, cache.links.next
      ensures Valid() && Plain() == d && Progress(f[1..], 0, 0, bufLen, g.bps, buf, done, all)
    {
      hide Progress;
      var j: nat := first;
      buf, done := before, false;
      while j < g.spc && !done
        invariant Valid() && Plain() == d && Progress(f, j, o, bufLen, g.bps, buf, done, all)
        decreases g.spc - j, !done
      {
        buf, done := ReadPart(sidx + j, o, bufLen, buf, d, f, j, all);
        j := j + 1;
      }
      ProgressCluster(f, j, o, bufLen, g.bps, buf, done, all);
    }

    // one round of lines 574-589: cluster i of the chain
    method ReadRound(c: nat, first: nat, o: nat, bufLen: nat, before: seq<Byte>,
                     ghost d: Disk, ghost clusters: seq<nat>, ghost f: File, ghost i: nat, ghost all: seq<Byte>)
      returns (buf: seq<Byte>, done: bool, next: nat)
      requires Valid() && Plain() == d && i < |clusters| && c == clusters[i] && Linked(d, g, clusters, i) && o < g.bps
      requires f == Data(d, g, clusters) && Progress(f[i..], first, o, bufLen, g.bps, before, false, all)
      modifies cache`disk, cache`lru, cache`trace, cache.flags, cache.sidx, cache.data
      modifies cache.links.prev, cache.links.next
      ensures Valid() && Plain() == d && Progress(f[i + 1..], 0, 0, bufLen, g.bps, buf, done, all)
      ensures !done ==> Reaches(clusters, i + 1, next)
    {
      EnterCluster(d, g, clusters, i);
      buf, done := ReadCluster(Clu2Sec(g, c), first, o, bufLen, before, d, f[i..], all);
      next := c;
      if !done {
        next := GetChain(c);
      }
    }

    // lines 574-590
    method ReadOn(at: nat, j: nat, o: nat, bufLen: nat, ghost d: Disk, ghost clusters: seq<nat>, ghost f: File,
                  ghost k: nat,
                  ghost all: seq<Byte>)
      returns (buf: seq<Byte>)
      requires Valid() && Plain() == d && Reaches(clusters, k, at) && o < g.bps && f == Data(d, g, clusters)
      requires forall i: nat :: i < |clusters| ==> Linked(d, g, clusters, i)
      requires Progress(f[k..], j, o, bufLen, g.bps, [], false, all)
      modifies cache`disk, cache`lru, cache`trace, cache.flags, cache.sidx, cache.data
      modifies cache.links.prev, cache.links.next
      ensures Valid() && Plain() == d && buf == all
    {
      hide Progress, Clu2Sec, EntrySector, Next, DiskOk;
      ghost var i: nat := k;
      buf := [];
      var c: nat, sectorInit: nat, byteInit: nat, done := at, j, o, false;
      while c < CHAIN_END && !done
        invariant Valid() && Plain() == d && byteInit < g.bps && i <= |f|
        invariant !done ==> Reaches(clusters, i, c)
        invariant Progress(f[i..], sectorInit, byteInit, bufLen, g.bps, buf, done, all)
        decreases |f| - i, !done
      {
        buf, done, c := ReadRound(c, sectorInit, byteInit, bufLen, buf, d, clusters, f, i, all);
        sectorInit, byteInit := 0, 0;
        i := i + 1;
      }
      if i < |f| { assert Linked(d, g, clusters, i); }
      ProgressEnd(f[i..], sectorInit, byteInit, bufLen, g.bps, buf, done, all);
    }

    /** fat32_read: what it copies into buf. A seek outside the file copies nothing; otherwise it copies, for
        the reads that line 587 gets right, the bytes of the file's clusters from seek on. */
    method Read(cidx: nat, fileSize: nat, bufLen: nat, seek: nat, ghost d: Disk, ghost clusters: seq<nat>)
      returns (buf: seq<Byte>)
      requires Valid() && Plain() == d && IsChain(d, g, cidx, clusters) && fileSize <= |FileBytes(Data(d, g, clusters))|
      modifies cache`disk, cache`lru, cache`trace, cache.flags, cache.sidx, cache.data
      modifies cache.links.prev, cache.links.next
      ensures Valid() && Plain() == d
      ensures seek >= fileSize ==> buf == []
      ensures seek < fileSize ==>
                var f, k := Data(d, g, clusters), Skip(g.spc, g.bps, seek);
                k < |f|
                && buf == ReadFrom(f[k..], StartSector(g.spc, g.bps, seek), StartByte(g.bps, seek), bufLen, g.bps,
                                   AsWritten)
      ensures seek < fileSize && SafeSeek(g.spc, g.bps, seek, bufLen) ==>
                var bytes := FileBytes(Data(d, g, clusters));
                buf == bytes[seek..Min(seek + bufLen, |bytes|)]
    {
      hide ReadFrom, FileBytes, BytesFrom, Skip, StartSector, StartByte, Linked, Shaped;
      buf := [];
      if seek < fileSize {
        var k, j, o := Skip(g.spc, g.bps, seek), StartSector(g.spc, g.bps, seek), StartByte(g.bps, seek);
        ghost var f := Data(d, g, clusters);
        DataShape(d, g, cidx, clusters);
        StartPosition(g.spc, g.bps, seek, Div(seek, g.bps), k, j, o);
        SeekAt(f, g.spc, g.bps, seek, k, j, o);
        var c := SkipClusters(cidx, k, d, clusters);
        buf := ReadOn(c, j, o, bufLen, d, clusters, f, k, ReadFrom(f[k..], j, o, bufLen, g.bps, AsWritten));
        if SafeRead(g.spc, g.bps, j, o, bufLen) {
          SafeReadIsSlice(f, g.spc, g.bps, seek, bufLen, k, j, o);
        }
      }
    }
  }

  /** Cluster i of a chain: its sectors are on the volume, and so is its table entry, which says what follows. */
  lemma EnterCluster(d: Disk, g: Geometry, clusters: seq<nat>, i: nat)
    requires GeometryOk(g) && i < |clusters| && Linked(d, g, clusters, i)
    ensures var f, c := Data(d, g, clusters), clusters[i];
            && f[i..][0] == f[i] && f[i..][1..] == f[i + 1..]
            && Clu2Sec(g, c) + g.spc <= |d| && f[i] == d[Clu2Sec(g, c)..Clu2Sec(g, c) + g.spc]
            && EntrySector(g, c) < |d| && Reaches(clusters, i + 1, Next(d, g, c))
  {
    forall j: nat | j < g.spc
      ensures Clu2Sec(g, clusters[i]) + j < |d|
              && Data(d, g, clusters)[i][j] == d[Clu2Sec(g, clusters[i]) + j]
    {
      DataSector(d, g, clusters, i, j);
    }
  }

  const BUFFER_BYTES: nat := 2 * PAGE_SIZE // buf_order is 1

  /** fat32_init with start_sector 0: the volume is the disk from its hidden sectors on, with as many buffers as fit
      in two pages. */
  method Mount(disk: seq<Sector>) returns (v: Volume)
    requires disk != [] && GeometryOk(GeometryOf(disk[0])) && GeometryOf(disk[0]).bps <= BUFFER_BYTES
    requires StartOf(disk[0]) <= |disk| && DiskOk(disk, GeometryOf(disk[0]))
    ensures fresh(v) && fresh(v.cache) && fresh(v.cache.flags) && fresh(v.cache.sidx) && fresh(v.cache.data)
    ensures fresh(v.cache.links.prev) && fresh(v.cache.links.next)
    ensures v.Valid() && v.g == GeometryOf(disk[0]) && v.Plain() == disk[StartOf(disk[0])..]
    ensures v.cache.trace == [] && v.cache.flags.Length == 2 * PAGE_SIZE / v.g.bps
  {
    hide GeometryOf, StartOf, Volume.Plain, SectorCache.SectorBuffers.Valid, Logical;
    var g := GeometryOf(disk[0]);
    BufferCount(g.bps);
    var cache := new SectorCache.SectorBuffers(g.bps, BUFFER_BYTES / g.bps, StartOf(disk[0]), disk);
    v := new Volume(cache, g);
    PlainFrom(v, disk, StartOf(disk[0]));
  }

  lemma PlainFrom(v: Volume, sectors: seq<Sector>, start: nat)
    requires v.cache.Valid() && v.cache.dsidx == start && v.cache.disk == sectors && start <= |sectors|
    requires forall s: nat :: OnDisk(v.cache.View(), s) ==> Logical(v.cache.View(), s) == sectors[s + start]
    ensures v.Plain() == sectors[start..]
  {
    hide Logical, Coherent, LruOk;
    assert forall s: nat :: s < |sectors| - start ==> OnDisk(v.cache.View(), s);
  }

  lemma BufferCount(bps: nat)
    requires 0 < bps <= BUFFER_BYTES
    ensures BUFFER_BYTES / bps > 0
  {}
}
