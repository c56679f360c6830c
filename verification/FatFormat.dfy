/** The boot sector and the table of a FAT32 volume as the FAT specification lays them out, against what the code
    reads from them. */
module FatFormat {
  import opened CacheState
  import opened FileData
  import opened FatLayout
  import opened LittleEndian

  // ----- the boot sector

  /** BPB_BytsPerSec, BPB_SecPerClus, BPB_RsvdSecCnt, BPB_NumFATs, BPB_HiddSec, BPB_FATSz32, BPB_RootClus. */
  datatype Parameters = Parameters(bytsPerSec: nat, secPerClus: Byte, rsvdSecCnt: nat, numFats: Byte, hiddSec: nat,
                                   fatSz: nat, rootClus: nat)

  predicate BootLaid(boot: Sector, p: Parameters) {
    && p.bytsPerSec < 0x1_0000 && p.rsvdSecCnt < 0x1_0000 && p.hiddSec < WORD && p.fatSz < WORD && p.rootClus < WORD
    && |boot| >= 48
    && Laid(boot, 11, BytesOf(p.bytsPerSec, 2)) && boot[13] == p.secPerClus && Laid(boot, 14, BytesOf(p.rsvdSecCnt, 2))
    && boot[16] == p.numFats && Laid(boot, 28, BytesOf(p.hiddSec, 4)) && Laid(boot, 36, BytesOf(p.fatSz, 4))
    && Laid(boot, 44, BytesOf(p.rootClus, 4))
  }

  /** The first sector after the reserved ones and all tables. */
  function DataStart(p: Parameters): nat {
    p.rsvdSecCnt + p.numFats * p.fatSz
  }

  /** fat32_init reads every parameter, finds the first sector of the data after the tables, and the volume after
      the hidden sectors. */
  lemma {:induction false} ReadsBoot(boot: Sector, p: Parameters)
    requires BootLaid(boot, p) && DataStart(p) < WORD
    ensures var g := GeometryOf(boot);
            && g.bps == p.bytsPerSec && g.spc == p.secPerClus && g.reserved == p.rsvdSecCnt
            && g.first == DataStart(p) && g.root == p.rootClus
    ensures StartOf(boot) == p.hiddSec
  {
    hide Laid, BytesOf, Le16, Le32;
    Reads16Whole(boot, 11, p.bytsPerSec);
    Reads16Whole(boot, 14, p.rsvdSecCnt);
    Reads32Whole(boot, 28, p.hiddSec);
    Reads32Whole(boot, 36, p.fatSz);
    Reads32Whole(boot, 44, p.rootClus);
  }

  /** The data of cluster c starts that many clusters after the data of cluster 2. */
  lemma {:induction false} ClusterStart(boot: Sector, p: Parameters, c: nat)
    requires BootLaid(boot, p) && c >= 2 && DataStart(p) + (c - 2) * p.secPerClus < WORD
    ensures Clu2Sec(GeometryOf(boot), c) == DataStart(p) + (c - 2) * p.secPerClus
  {
    hide BootLaid;
    ProductLe(0, c - 2, p.secPerClus);
    ReadsBoot(boot, p);
  }

  // ----- the table

  /** Byte i of sector s among the bytes of all sectors. */
  lemma {:induction false} JoinedAt(d: seq<Sector>, bps: nat, s: nat, i: nat)
    requires s < |d| && i < bps && forall k :: 0 <= k < |d| ==> |d[k]| == bps
    ensures s * bps + i < |Join(d)| && Join(d)[s * bps + i] == d[s][i]
  {
    JoinDrop(d, s, bps);
    assert Join(d[s..]) == d[s] + Join(d[s..][1..]);
    assert Join(d)[s * bps..][i] == d[s][i];
  }

  /** Where the entry of cluster c is. */
  lemma EntryPlace(g: Geometry, c: nat, per: nat, q: nat, r: nat)
    requires g.bps == 4 * per && per > 0 && q == c / per && r == c % per
    ensures g.reserved * g.bps + 4 * c == (g.reserved + q) * g.bps + 4 * r && 4 * r + 4 <= g.bps
  {
    DivFacts(c, per);
    assert 4 * (q * per) == q * (4 * per);
    assert (g.reserved + q) * g.bps == g.reserved * g.bps + q * g.bps;
  }

  /** The entry of cluster c is the four bytes at 4 * c of the table, which comes right after the reserved sectors. */
  lemma {:induction false} NextIsEntry(d: Disk, g: Geometry, c: nat)
    requires GeometryOk(g) && g.bps % 4 == 0 && DiskOk(d, g) && g.reserved * g.bps + 4 * c + 3 < |Join(d)|
    ensures var all, at := Join(d), g.reserved * g.bps + 4 * c;
            Next(d, g, c)
            == all[at] as int + 0x100 * all[at + 1] as int + 0x1_0000 * all[at + 2] as int
               + 0x100_0000 * all[at + 3] as int
  {
    hide Join;
    var per := PerSector(g);
    var q, r := c / per, c % per;
    var s := g.reserved + q;
    EntryPlace(g, c, per, q, r);
    JoinLength(d, g.bps);
    ProductMono(s, |d|, g.bps);
    JoinedAt(d, g.bps, s, 4 * r);
    JoinedAt(d, g.bps, s, 4 * r + 1);
    JoinedAt(d, g.bps, s, 4 * r + 2);
    JoinedAt(d, g.bps, s, 4 * r + 3);
    assert EntrySector(g, c) == s && Mod(c, per) * 4 == 4 * r;
  }

  /** The marks that end a chain are those of the specification. */
  lemma EndMarks(v: nat)
    ensures Reaches([], 0, v) <==> v >= 0x0fff_fff8
  {}

  // ----- the data

  lemma {:induction false} FromThere(f: File, j: nat, o: nat)
    requires f != [] && j < |f[0]| && o < |f[0][j]|
    ensures o < |BytesFrom(f, j)| && BytesFrom(f, j)[o] == f[0][j][o]
  {
    assert Join(f[0][j..]) == f[0][j] + Join(f[0][j..][1..]);
  }

  lemma PlaceInside(k: nat, n: nat, spc: nat, j: nat, bps: nat, o: nat)
    requires k < n && j < spc && o < bps
    ensures (k * spc + j) * bps + o < n * (spc * bps)
  {
    SplitProduct(k, spc, j, bps);
    ProductLe(j + 1, spc, bps);
    assert (j + 1) * bps == j * bps + bps;
    ProductLe(k + 1, n, spc * bps);
    assert (k + 1) * (spc * bps) == k * (spc * bps) + spc * bps;
  }

  /** Byte o of sector j of the k-th cluster of a file is byte o of that sector of the volume. */
  lemma {:induction false} FileByteAt(d: Disk, g: Geometry, c: nat, clusters: seq<nat>, k: nat, j: nat, o: nat,
                                      at: nat, p: nat)
    requires GeometryOk(g) && DiskOk(d, g) && IsChain(d, g, c, clusters) && k < |clusters| && j < g.spc && o < g.bps
    requires at == (k * g.spc + j) * g.bps + o && p == (Clu2Sec(g, clusters[k]) + j) * g.bps + o
    ensures at < |FileBytes(Data(d, g, clusters))| && p < |Join(d)|
    ensures FileBytes(Data(d, g, clusters))[at] == Join(d)[p]
  {
    hide Join, FileBytes, IsChain, ClusterOk, BytesFrom, Clu2Sec, SeeksTo;
    var f := Data(d, g, clusters);
    ChainAllOk(d, g, c, clusters);
    DataShape(d, g, c, clusters);
    DataSector(d, g, clusters, k, j);
    FileLength(f, g.spc, g.bps, g.spc * g.bps);
    PlaceInside(k, |clusters|, g.spc, j, g.bps, o);
    SplitProduct(k, g.spc, j, g.bps);
    SeekAt(f, g.spc, g.bps, at, k, j, o);
    FileThere(f, at, k, j, o);
    JoinedAt(d, g.bps, Clu2Sec(g, clusters[k]) + j, o);
  }

  lemma {:induction false} FileThere(f: File, at: nat, k: nat, j: nat, o: nat)
    requires at < |FileBytes(f)| && SeeksTo(f, at, k, j, o) && o < |f[k][j]|
    ensures FileBytes(f)[at] == f[k][j][o]
  {
    hide FileBytes, BytesFrom;
    FromThere(f[k..], j, o);
    assert FileBytes(f)[at..][0] == FileBytes(f)[at];
  }
}
