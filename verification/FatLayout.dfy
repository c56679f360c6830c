/** Geometry, table links and cluster chains of a FAT32 volume, over a plain array of sectors. */
module FatLayout {
  import opened CacheState
  import opened FileData

  const CHAIN_END: nat := 0x0fff_fff8 // FAT32_CHAIN_END_FLAG

  const WORD: nat := 0x1_0000_0000 // uint32_t wraps here

  /** byte_per_sector, sec_per_cluster, reserved_sec_cnt, first_cluster_sidx, root_cidx */
  datatype Geometry = Geometry(bps: nat, spc: nat, reserved: nat, first: nat, root: nat)

  type Disk = seq<Sector>

  // a uint32_t at byte i, least significant byte first
  function Le32(s: seq<Byte>, i: nat): (r: nat)
    ensures r < WORD
  {
    if i + 3 < |s| then
      var a: int, b: int, c: int, e: int := s[i], s[i + 1], s[i + 2], s[i + 3];
      a + 0x100 * b + 0x1_0000 * c + 0x100_0000 * e
    else 0
  }

  // a uint16_t
  function Le16(s: seq<Byte>, i: nat): (r: nat)
    ensures r < 0x1_0000
  {
    if i + 1 < |s| then
      var a: int, b: int := s[i], s[i + 1];
      a + 0x100 * b
    else 0
  }

  // fat32_clu2sec, in 32-bit arithmetic
  function Clu2Sec(g: Geometry, c: nat): nat {
    ((c - 2) * g.spc + g.first) % WORD
  }

  // fat32_sec2clu
  function Sec2Clu(g: Geometry, s: nat): nat
    requires g.spc > 0
  {
    ((s - g.first) % WORD / g.spc + 2) % WORD
  }

  /** Cluster and sector numbers convert back and forth while no sector number overflows. */
  lemma ClusterRoundTrip(g: Geometry, c: nat)
    requires 0 < g.spc && 2 <= c < WORD && (c - 2) * g.spc + g.first < WORD
    ensures Sec2Clu(g, Clu2Sec(g, c)) == c
  {
    ProductLe(0, c - 2, g.spc);
    SectorToCluster(g, c - 2, (c - 2) * g.spc);
  }

  lemma SectorToCluster(g: Geometry, k: nat, x: nat)
    requires 0 < g.spc && k + 2 < WORD && x == k * g.spc && x + g.first < WORD
    ensures Sec2Clu(g, (x + g.first) % WORD) == k + 2
  {
    DivMul(k, g.spc);
    assert (x + g.first) % WORD == x + g.first && x % WORD == x;
  }

  /** What fat32_init takes from the boot sector. */
  function GeometryOf(boot: Sector): Geometry {
    var reserved := Le16(boot, 14);
    Geometry(Le16(boot, 11), if 13 < |boot| then boot[13] as nat else 0, reserved,
             (Le32(boot, 36) * (if 16 < |boot| then boot[16] as nat else 0) + reserved) % WORD, Le32(boot, 44))
  }

  // HiddSec, where the volume starts on the disk
  function StartOf(boot: Sector): nat {
    Le32(boot, 28)
  }

  // ----- the file allocation table

  // chain_per_sector
  function PerSector(g: Geometry): (r: nat)
    requires g.bps >= 32
    ensures r > 0
  {
    g.bps / 4
  }

  // sector of the table that holds the entry of cluster c
  function EntrySector(g: Geometry, c: nat): nat
    requires g.bps >= 32
  {
    Div(c, PerSector(g)) + g.reserved
  }

  // fat32_get_chain
  function Next(d: Disk, g: Geometry, c: nat): nat
    requires g.bps >= 32
  {
    if EntrySector(g, c) < |d| then Le32(d[EntrySector(g, c)], Mod(c, PerSector(g)) * 4) else 0
  }

  predicate GeometryOk(g: Geometry) {
    g.bps >= 32 && g.spc > 0
  }

  /** The sectors of cluster c and its table entry are on the volume. */
  predicate ClusterOk(d: Disk, g: Geometry, c: nat)
    requires GeometryOk(g)
  {
    c < CHAIN_END && Clu2Sec(g, c) + g.spc <= |d| && EntrySector(g, c) < |d|
  }

  predicate DiskOk(d: Disk, g: Geometry) {
    forall i :: 0 <= i < |d| ==> |d[i]| == g.bps
  }

  /** What follows cluster k of a chain: the next one, or an end mark. */
  ghost predicate Linked(d: Disk, g: Geometry, clusters: seq<nat>, k: nat)
    requires GeometryOk(g)
  {
    k < |clusters| && ClusterOk(d, g, clusters[k]) && Reaches(clusters, k + 1, Next(d, g, clusters[k]))
  }

  /** c is what a walk along the chain has after k steps. */
  predicate Reaches(clusters: seq<nat>, k: nat, c: nat) {
    k <= |clusters| && if k < |clusters| then c == clusters[k] else c >= CHAIN_END
  }

  /** The chain that starts at c visits these clusters and ends. */
  ghost predicate IsChain(d: Disk, g: Geometry, c: nat, clusters: seq<nat>)
    requires GeometryOk(g)
  {
    Reaches(clusters, 0, c) && forall k: nat :: k < |clusters| ==> Linked(d, g, clusters, k)
  }

  /** A chain has one list of clusters. */
  lemma ChainUnique(d: Disk, g: Geometry, c: nat, xs: seq<nat>, ys: seq<nat>)
    requires GeometryOk(g) && IsChain(d, g, c, xs) && IsChain(d, g, c, ys)
    ensures xs == ys
  {
    if |xs| <= |ys| { SamePrefix(d, g, c, xs, ys, |xs|); }
    else { SamePrefix(d, g, c, ys, xs, |ys|); }
  }

  lemma {:induction false} SamePrefix(d: Disk, g: Geometry, c: nat, xs: seq<nat>, ys: seq<nat>, k: nat)
    requires GeometryOk(g) && IsChain(d, g, c, xs) && IsChain(d, g, c, ys) && k <= |xs| <= |ys|
    ensures xs[..k] == ys[..k]
    ensures k == |xs| ==> k == |ys|
    ensures k < |xs| ==> xs[k] == ys[k]
  {
    if k > 0 {
      SamePrefix(d, g, c, xs, ys, k - 1);
      assert xs[..k] == xs[..k - 1] + [xs[k - 1]] && ys[..k] == ys[..k - 1] + [ys[k - 1]];
      assert Linked(d, g, xs, k - 1) && Linked(d, g, ys, k - 1);
    }
    if k < |ys| { assert Linked(d, g, ys, k); }
  }

  ghost predicate AllOk(d: Disk, g: Geometry, clusters: seq<nat>)
    requires GeometryOk(g)
  {
    forall i :: 0 <= i < |clusters| ==> ClusterOk(d, g, clusters[i])
  }

  lemma ChainAllOk(d: Disk, g: Geometry, c: nat, clusters: seq<nat>)
    requires GeometryOk(g) && IsChain(d, g, c, clusters)
    ensures AllOk(d, g, clusters)
  {
    forall i | 0 <= i < |clusters| ensures ClusterOk(d, g, clusters[i]) { assert Linked(d, g, clusters, i); }
  }

  // ----- the data of a chain

  function SectorOf(d: Disk, g: Geometry, c: nat, j: nat): Sector {
    if Clu2Sec(g, c) + j < |d| then d[Clu2Sec(g, c) + j] else []
  }

  /** The sectors of cluster c. */
  function ClusterData(d: Disk, g: Geometry, c: nat): (s: seq<Sector>)
    ensures |s| == g.spc
  {
    seq(g.spc, j requires 0 <= j < g.spc => SectorOf(d, g, c, j))
  }

  /** The clusters of a chain. */
  function Data(d: Disk, g: Geometry, clusters: seq<nat>): (f: File)
    ensures |f| == |clusters|
  {
    seq(|clusters|, i requires 0 <= i < |clusters| => ClusterData(d, g, clusters[i]))
  }

  lemma DataShape(d: Disk, g: Geometry, c: nat, clusters: seq<nat>)
    requires GeometryOk(g) && DiskOk(d, g) && IsChain(d, g, c, clusters)
    ensures Shaped(Data(d, g, clusters), g.spc, g.bps)
  {
    ChainAllOk(d, g, c, clusters);
  }

  /** Sector j of cluster k of a chain is on the volume. */
  lemma DataSector(d: Disk, g: Geometry, clusters: seq<nat>, k: nat, j: nat)
    requires GeometryOk(g) && k < |clusters| && j < g.spc && ClusterOk(d, g, clusters[k])
    ensures Clu2Sec(g, clusters[k]) + j < |d|
    ensures Data(d, g, clusters)[k][j] == d[Clu2Sec(g, clusters[k]) + j]
  {}
}
