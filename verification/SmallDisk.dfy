/** Parts of small FAT32 disks of 512-byte sectors, for runs on concrete inputs. */
module SmallDisk {
  import opened CacheState
  import opened FatLayout
  import opened Directory

  const BYTES: nat := 512

  /** Jump code, 512 bytes a sector, spc sectors a cluster, one reserved sector, one table of one sector, and
      the cluster of the root directory. */
  function Boot(spc: Byte, root: Byte): (s: Sector)
    ensures |s| == BYTES
  {
    seq(BYTES, i =>
      if i == 0 then 0xeb
      else if i == 1 then 0x58
      else if i == 2 then 0x90
      else if i == 12 then 2
      else if i == 13 then spc
      else if i == 14 || i == 16 || i == 36 then 1
      else if i == 44 then root
      else 0)
  }

  function Small(spc: nat, root: nat): Geometry {
    Geometry(BYTES, spc, 1, 2, root)
  }

  /** A table in which clusters 2 and 3 are chains: that of a file, and that of the root directory. */
  const ONE_EACH: Sector := seq(BYTES, i =>
    if i == 0 then 0xf8 else if i < 16 then (if i % 4 == 3 then 0x0f else 0xff) else 0)

  const ZEROS: Sector := seq(BYTES, _ => 0)

  /** A directory entry: name, attributes, first cluster, size. */
  function EntryOf(name: seq<Byte>, attr: Byte, cluster: Byte, size: nat): (b: seq<Byte>)
    requires size < 0x1_0000
    ensures |b| == ENTRY
  {
    seq(ENTRY, i requires 0 <= i =>
      if i < 11 then (if i < |name| then name[i] else 0x20)
      else if i == 11 then attr
      else if i == 26 then cluster
      else if i == 28 then (size % 0x100) as Byte
      else if i == 29 then (size / 0x100) as Byte
      else 0)
  }

  /** The root directory with one file, F, in cluster 2. */
  function OneFile(size: nat): (s: Sector)
    requires size < 0x1_0000
    ensures |s| == BYTES
  {
    EntryOf([0x46], 0x20, 2, size) + seq(BYTES - ENTRY, _ => 0)
  }

  lemma BootRead(spc: Byte, root: Byte)
    ensures GeometryOf(Boot(spc, root)) == Small(spc, root as nat) && StartOf(Boot(spc, root)) == 0
  {
    var b := Boot(spc, root);
    assert Le16(b, 11) == 512 && Le16(b, 14) == 1;
    assert Le32(b, 36) == 1 && Le32(b, 44) == root as nat && Le32(b, 28) == 0;
  }

  /** Cluster 2 starts in sector 2. */
  lemma OneChain(d: Disk, spc: nat, root: nat)
    requires spc > 0 && root >= 2 && |d| >= 2 + spc && d[1] == ONE_EACH
    ensures var g := Small(spc, root); GeometryOk(g) && IsChain(d, g, 2, [2]) && Clu2Sec(g, 2) == 2
  {
    var g := Small(spc, root);
    assert Le32(ONE_EACH, 8) == 0x0fff_ffff && PerSector(g) == 128;
    assert (2 - 2) * g.spc + g.first == 2;
    assert EntrySector(g, 2) == 1 && Clu2Sec(g, 2) == 2;
    assert Linked(d, g, [2], 0);
  }
}
