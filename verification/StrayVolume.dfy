/** kernel/fat32.c:462 on a concrete disk of 512-byte sectors: the root directory has a subdirectory in the last
    entry of its first cluster and a file in the next, and the iterator never yields the file. */
module StrayVolume {
  import opened Collections
  import opened Readings
  import opened CacheState
  import opened FileData
  import opened FatLayout
  import opened FatVolume
  import opened Directory
  import opened DirectoryScan
  import opened SmallDisk

  /** Entries of a sector. */
  const PER_SECTOR: nat := 16

  // ----- the disk

  /** Cluster 2 goes on with cluster 4, which ends its chain; clusters 3 and 5 are chains of their own. */
  const TABLE: Sector := seq(BYTES, i =>
    if i == 0 then 0xf8
    else if i == 8 then 4
    else if i < 8 || 12 <= i < 24 then (if i % 4 == 3 then 0x0f else 0xff)
    else 0)

  /** Directory S in cluster 5. */
  const DIR_S: seq<Byte> := EntryOf([0x53], 0x10, 5, 0)

  /** File F, 512 bytes in cluster 3. */
  const FILE_F: seq<Byte> := EntryOf([0x46], 0x20, 3, 512)

  /** Fifteen deleted entries and the directory S. */
  const FIRST: Sector := seq(BYTES - ENTRY, i => if i % ENTRY == 0 then DIRNAME_FREE else 0) + DIR_S

  /** The file F, and entries never used. */
  const SECOND: Sector := FILE_F + seq(BYTES - ENTRY, _ => 0)

  /** The directory S: itself and its parent. */
  const INSIDE: Sector :=
    EntryOf([DOT], 0x10, 5, 0) + EntryOf([DOT, DOT], 0x10, 0, 0) + seq(BYTES - 2 * ENTRY, _ => 0)

  /** The file F holds zeros. */
  const DISK: Disk := [Boot(1, 2), TABLE, FIRST, ZEROS, SECOND, INSIDE]

  const SMALL: Geometry := Small(1, 2)

  const SUBDIR: Object := DirObject(5, FromShort, [0x53, 0])

  const REGULAR: Object := FileObject(3, 512, Long([]), [0x46, 0])

  lemma DiskSized()
    ensures GeometryOk(SMALL) && DiskOk(DISK, SMALL)
  {}

  // ----- its chains

  lemma TableRead()
    ensures Le32(TABLE, 8) == 4 && Le32(TABLE, 12) == 0x0fff_ffff && Le32(TABLE, 16) == 0x0fff_ffff
  {}

  lemma NextIs(c: nat)
    requires c < 128
    ensures EntrySector(SMALL, c) == 1 && Next(DISK, SMALL, c) == Le32(TABLE, c * 4)
  {
    assert PerSector(SMALL) == 128;
  }

  /** Cluster c is sector c. */
  lemma ClusterIs(c: nat)
    requires 2 <= c <= 4
    ensures Clu2Sec(SMALL, c) == c && ClusterData(DISK, SMALL, c) == [DISK[c]]
  {
    assert (c - 2) * SMALL.spc + SMALL.first == c;
  }

  lemma LinkedIs(clusters: seq<nat>, k: nat)
    requires k < |clusters| && 2 <= clusters[k] <= 4 && Reaches(clusters, k + 1, Le32(TABLE, clusters[k] * 4))
    ensures Linked(DISK, SMALL, clusters, k)
  {
    NextIs(clusters[k]);
    ClusterIs(clusters[k]);
  }

  lemma Chains()
    ensures IsChain(DISK, SMALL, 2, [2, 4]) && IsChain(DISK, SMALL, 3, [3]) && Next(DISK, SMALL, 2) == 4
  {
    hide Next, EntrySector, Le32, Clu2Sec, Linked;
    TableRead();
    NextIs(2);
    LinkedIs([2, 4], 0);
    LinkedIs([2, 4], 1);
    LinkedIs([3], 0);
  }

  // ----- its entries

  function SlotOf(c: nat, s: Sector, k: nat): Slot {
    Slot(c, k, Entry(s, ENTRY * k))
  }

  /** The sixteen entries of a cluster of one sector. */
  function SectorSlots(c: nat, s: Sector): (r: seq<Slot>)
    ensures |r| == PER_SECTOR
  {
    seq(PER_SECTOR, k requires 0 <= k => SlotOf(c, s, k))
  }

  lemma {:induction false} SlotsFrom(f: File, clusters: seq<nat>, k: nat)
    requires f != [] && |clusters| == |f| && |f[0]| == 1 && k <= PER_SECTOR
    ensures Slots(f, clusters, 0, ENTRY * k, BYTES)
            == SectorSlots(clusters[0], f[0][0])[k..] + Slots(f[1..], clusters[1..], 0, 0, BYTES)
    decreases PER_SECTOR - k
  {
    hide Slots, Entry;
    var all, rest := SectorSlots(clusters[0], f[0][0]), Slots(f[1..], clusters[1..], 0, 0, BYTES);
    SlotsStep(f, clusters, 0, ENTRY * k, BYTES);
    if k == PER_SECTOR {
      SlotsStep(f, clusters, 1, 0, BYTES);
      assert all[k..] + rest == rest;
    } else {
      SlotsFrom(f, clusters, k + 1);
      assert all[k..] + rest == [all[k]] + (all[k + 1..] + rest);
    }
  }

  lemma {:induction false} SlotsAre()
    ensures Entries(DISK, SMALL, [2, 4]) == SectorSlots(2, FIRST) + SectorSlots(4, SECOND)
    ensures Entries(DISK, SMALL, [3]) == SectorSlots(3, ZEROS)
  {
    hide ClusterData, Clu2Sec, SectorSlots;
    ClusterIs(2);
    ClusterIs(3);
    ClusterIs(4);
    var f, one := Data(DISK, SMALL, [2, 4]), Data(DISK, SMALL, [3]);
    assert f[0] == [FIRST] && f[1..][0] == [SECOND] && one[0] == [ZEROS];
    SlotsFrom(f, [2, 4], 0);
    SlotsFrom(f[1..], [4], 0);
    SlotsFrom(one, [3], 0);
    NoSlots(f[1..][1..], [4][1..]);
    NoSlots(one[1..], [3][1..]);
  }

  lemma {:induction false} NoSlots(f: File, clusters: seq<nat>)
    requires f == []
    ensures Slots(f, clusters, 0, 0, BYTES) == []
  {}

  /** Free entries are skipped. */
  lemma {:induction false} SkipFree(slots: seq<Slot>, root: nat, n: nat)
    requires n <= |slots| && forall k :: 0 <= k < n ==> KindOf(slots[k].bytes).FreeEntry?
    ensures Scan(slots, [], root) == Bump(Scan(slots[n..], [], root), n)
    ensures Objects(slots, [], root) == Objects(slots[n..], [], root)
    decreases n
  {
    if n == 0 {
      assert slots[0..] == slots;
    } else {
      SkipFree(slots[1..], root, n - 1);
      assert slots[1..][n - 1..] == slots[n..];
    }
  }

  lemma FirstEntries(k: nat)
    requires k < PER_SECTOR
    ensures KindOf(Entry(FIRST, ENTRY * k)).FreeEntry? <==> k < PER_SECTOR - 1
    ensures k == PER_SECTOR - 1 ==> Entry(FIRST, ENTRY * k) == DIR_S
  {
    if k < PER_SECTOR - 1 {
      assert FIRST[ENTRY * k] == DIRNAME_FREE;
      assert Entry(FIRST, ENTRY * k)[0] == FIRST[ENTRY * k];
    } else {
      assert FIRST[BYTES - ENTRY..BYTES] == DIR_S;
      assert DIR_S[0] == 0x53 && DIR_S[11] == 0x10;
    }
  }

  lemma SecondEntries(k: nat)
    requires k < PER_SECTOR
    ensures KindOf(Entry(SECOND, ENTRY * k)).FreeEntry? <==> k > 0
    ensures k == 0 ==> Entry(SECOND, ENTRY * k) == FILE_F
  {
    if k > 0 {
      assert SECOND[ENTRY * k] == 0;
      assert Entry(SECOND, ENTRY * k)[0] == SECOND[ENTRY * k];
    } else {
      assert SECOND[0..ENTRY] == FILE_F;
      assert FILE_F[0] == 0x46 && FILE_F[11] == 0x20;
    }
  }

  lemma EmptyEntries(k: nat)
    requires k < PER_SECTOR
    ensures KindOf(Entry(ZEROS, ENTRY * k)).FreeEntry?
  {
    assert ZEROS[ENTRY * k] == 0;
    assert Entry(ZEROS, ENTRY * k)[0] == ZEROS[ENTRY * k];
  }

  lemma {:induction false} TheNames()
    ensures ShortName(DIR_S) == [0x53, 0] && ShortName(FILE_F) == [0x46, 0]
  {
    ShortOne(DIR_S);
    ShortOne(FILE_F);
  }

  lemma {:induction false} ShortOne(b: seq<Byte>)
    requires |b| == ENTRY && b[0] != 0x20 && b[1] == b[5] == 0x20
    ensures ShortName(b) == [b[0], 0]
  {
    var n := b[..8];
    assert UpToSpace(n[1..]) == [];
    assert UpToSpace(n) == [b[0]] + [];
    assert [b[0]] + [] + [0] == [b[0], 0];
  }

  lemma {:induction false} TheObjects()
    ensures MakeObject(DIR_S, [], SMALL.root) == Some(SUBDIR) && KindOf(DIR_S).DirEntry?
    ensures MakeObject(FILE_F, [], SMALL.root) == Some(REGULAR) && KindOf(FILE_F).FileEntry?
  {
    hide ShortName;
    TheNames();
    assert FirstCluster(DIR_S) == 5 && FirstCluster(FILE_F) == 3 && Le32(FILE_F, 28) == 512;
  }

  // ----- what a scan finds, and what the iterator finds

  /** The object in the first entry, and the free entries after it. */
  lemma {:induction false} LastObject(slots: seq<Slot>, o: Object, root: nat)
    requires slots != [] && IsObject(slots[0].bytes) && MakeObject(slots[0].bytes, [], root) == Some(o)
    requires forall k :: 0 < k < |slots| ==> KindOf(slots[k].bytes).FreeEntry?
    ensures Objects(slots, [], root) == Some([o])
  {
    hide MakeObject, KindOf;
    SkipFree(slots[1..], root, |slots| - 1);
    assert slots[1..][|slots| - 1..] == [];
    assert [o] + [] == [o];
  }

  /** Free entries, an object, and then the object of LastObject. */
  lemma {:induction false} TwoObjects(slots: seq<Slot>, n: nat, x: Object, y: Object, root: nat)
    requires n + 1 < |slots| && forall k :: 0 <= k < n || n + 1 < k < |slots| ==> KindOf(slots[k].bytes).FreeEntry?
    requires IsObject(slots[n].bytes) && MakeObject(slots[n].bytes, [], root) == Some(x)
    requires IsObject(slots[n + 1].bytes) && MakeObject(slots[n + 1].bytes, [], root) == Some(y)
    ensures Objects(slots, [], root) == Some([x, y]) && Scan(slots, [], root) == Found(x, n + 1)
  {
    hide MakeObject, KindOf;
    SkipFree(slots, root, n);
    LastObject(slots[n + 1..], y, root);
    assert slots[n..][0] == slots[n] && slots[n..][1..] == slots[n + 1..];
    assert Objects(slots[n..], [], root) == Prepend(Some(x), Some([y]));
    assert [x] + [y] == [x, y];
  }

  /** What the entries of the root directory are. */
  lemma RootEntries(slots: seq<Slot>)
    requires slots == SectorSlots(2, FIRST) + SectorSlots(4, SECOND)
    ensures |slots| == 32 && slots[15].bytes == DIR_S && slots[16].bytes == FILE_F
    ensures forall k :: 0 <= k < 15 || 16 < k < 32 ==> KindOf(slots[k].bytes).FreeEntry?
  {
    hide KindOf, Entry, EntryOf;
    FirstEntries(15);
    SecondEntries(0);
    forall k | 0 <= k < 15 || 16 < k < 32 ensures KindOf(slots[k].bytes).FreeEntry? {
      if k < 15 { FirstEntries(k); } else { SecondEntries(k - 16); }
    }
  }

  lemma {:induction false} ScansAre()
    ensures var slots := Entries(DISK, SMALL, [2, 4]);
            && Objects(slots, [], SMALL.root) == Some([SUBDIR, REGULAR])
            && Scan(slots, [], SMALL.root) == Found(SUBDIR, 16)
            && |slots| == 32 && KindOf(slots[15].bytes).DirEntry?
    ensures Scan(Entries(DISK, SMALL, [3]), [], SMALL.root) == Finished
  {
    hide KindOf, MakeObject, Entry, Slots, Data, EntryOf;
    SlotsAre();
    TheObjects();
    var slots, none := Entries(DISK, SMALL, [2, 4]), Entries(DISK, SMALL, [3]);
    RootEntries(slots);
    TwoObjects(slots, 15, SUBDIR, REGULAR, SMALL.root);
    forall k | 0 <= k < |none| ensures KindOf(none[k].bytes).FreeEntry? { EmptyEntries(k); }
    SkipFree(none, SMALL.root, |none|);
    assert none[|none|..] == [];
  }

  /** The subdirectory is in the last entry of cluster 2. */
  lemma {:induction false} FoundLast()
    ensures FoundAt(SMALL, Entries(DISK, SMALL, [2, 4]), Data(DISK, SMALL, [2, 4]), [2, 4], 0, Iter(2, 0, 480), SUBDIR)
  {
    hide KindOf, MakeObject, Objects, Scan, AtSlot, Entry, SectorSlots, ClusterData;
    ScansAre();
    SlotsAre();
    ClusterIs(2);
    var slots, f := Entries(DISK, SMALL, [2, 4]), Data(DISK, SMALL, [2, 4]);
    assert f[0] == [FIRST] && f[0..] == f && [2, 4][0..] == [2, 4];
    LastSlot(slots, f, [2, 4]);
    HitHere(slots, 15, f, [2, 4], 0, 480, SMALL.bps, SUBDIR, Found(SUBDIR, 16));
  }

  lemma {:induction false} LastSlot(slots: seq<Slot>, f: File, clusters: seq<nat>)
    requires f != [] && |clusters| == |f| && |f[0]| == 1 && slots == Slots(f, clusters, 0, 0, BYTES)
    ensures 15 < |slots| && AtSlot(slots, 15, f, clusters, 0, 480, BYTES)
  {
    hide SectorSlots;
    SlotsFrom(f, clusters, 0);
    SlotsFrom(f, clusters, 15);
  }

  /** The root directory lists the subdirectory and the file. The call that finds the subdirectory leaves the
      iterator in cluster 3, outside the chain, where nothing is ahead of it. */
  lemma {:induction false} DirectoryHidesFile()
    ensures var slots, f, at := Entries(DISK, SMALL, [2, 4]), Data(DISK, SMALL, [2, 4]), Iter(2, 0, 480);
            && GeometryOk(SMALL) && Objects(slots, [], SMALL.root) == Some([SUBDIR, REGULAR])
            && Scan(slots, [], SMALL.root) == Found(SUBDIR, 16) && FoundAt(SMALL, slots, f, [2, 4], 0, at, SUBDIR)
            && Leave(DISK, SMALL, at, SUBDIR, AsWritten) == Iter(3, 0, 0)
            && !ResumesRight(SMALL, [2, 4], 0, at, SUBDIR, AsWritten)
            && Leave(DISK, SMALL, at, SUBDIR, Intended) == Iter(4, 0, 0)
            && Stands(Iter(3, 0, 0), [3], 0, SMALL)
            && Scan(Entries(DISK, SMALL, [3]), [], SMALL.root) == Finished
  {
    hide Objects, Scan, Slots, Data, Next, FoundAt, Entries;
    Chains();
    ScansAre();
    FoundLast();
  }

  /** Two calls of the iterator on the root directory, as written: the subdirectory, then the end. */
  method ListRoot(v: Volume) returns (first: Outcome, second: Outcome)
    requires v.Valid() && v.g == SMALL && v.Plain() == DISK
    modifies v.cache`disk, v.cache`lru, v.cache`trace, v.cache.flags, v.cache.sidx, v.cache.data
    modifies v.cache.links.prev, v.cache.links.next
    ensures v.Valid() && v.Plain() == DISK && first == Yield(SUBDIR) && second == End
  {
    hide Volume.Valid, Volume.Plain;
    Chains();
    DirectoryHidesFile();
    ghost var f, k := Data(DISK, SMALL, [2, 4]), 0;
    assert f[0..] == f;
    var it, at;
    first, it, at, k := IterNext(v, IterStart(2), AsWritten, DISK, f, [2, 4], 0);
    second, it, at, k := IterNext(v, it, AsWritten, DISK, Data(DISK, SMALL, [3]), [3], 0);
  }

  /** From the disk on: mounting it and listing its root directory never yields the file. */
  method MountAndList() returns (first: Outcome, second: Outcome)
    ensures first == Yield(SUBDIR) && second == End
  {
    hide Volume.Valid, Volume.Plain, GeometryOf, StartOf;
    BootRead(1, 2);
    DiskSized();
    assert DISK[0] == Boot(1, 2) && DISK[0..] == DISK;
    var v := Mount(DISK);
    first, second := ListRoot(v);
  }
}
