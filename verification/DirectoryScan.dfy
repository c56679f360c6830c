/** The directory loops of kernel/fat32.c over a mounted volume: the search for free entries, and the
    iterator that yields one object a call. */
module DirectoryScan {
  import opened Readings
  import opened Collections
  import opened CacheState
  import opened FileData
  import opened FatLayout
  import opened FatVolume
  import opened Directory

  /** The directory entries of a chain. */
  function Entries(d: Disk, g: Geometry, clusters: seq<nat>): seq<Slot> {
    Slots(Data(d, g, clusters), clusters, 0, 0, g.bps)
  }

  /** Byte i is where an entry starts. */
  predicate OnEntry(i: nat) {
    i % ENTRY == 0
  }

  lemma EntryStart(i: nat)
    requires i % ENTRY == 0
    ensures OnEntry(i)
  {}

  lemma EntryFits(i: nat, bps: nat)
    requires OnEntry(i) && OnEntry(bps) && i < bps
    ensures i + ENTRY <= bps && OnEntry(i + ENTRY)
  {}

  // ----- fat32_search_in_dir_entry

  ghost predicate Answers(slots: seq<Slot>, num: nat, cidx: nat, off: nat) {
    num > 0 && exists s: nat :: FirstRun(slots, s, num) && slots[s].cidx == cidx && slots[s].off == off
  }

  /** One entry of the search. */
  method SearchEntry(mark: Byte, c: nat, off: nat, st: Search, num: nat, ghost slots: seq<Slot>, ghost p: nat)
    returns (t: Search, found: bool)
    requires Tracking(slots, p, st, num) && p < |slots|
    requires slots[p].bytes != [] && slots[p].bytes[0] == mark && slots[p].cidx == c && slots[p].off == off
    ensures if found then Answers(slots, num, t.cidx, t.off) else Tracking(slots, p + 1, t, num)
  {
    if mark == DIRNAME_FREE || mark == DIRNAME_RES_FREE {
      TrackFree(slots, p, st, num);
      t := if !st.last then Search(true, 1, c, off) else st.(cnt := st.cnt + 1);
      found := t.cnt == num;
    } else {
      TrackBusy(slots, p, st, num);
      t, found := st.(last := false), false;
    }
  }

  // lines 236-256
  method SearchSector(dat: Sector, c: nat, j: nat, before: Search, num: nat, bps: nat,
                      ghost slots: seq<Slot>, ghost start: nat, ghost f: File, ghost clusters: seq<nat>)
    returns (st: Search, found: bool, ghost p: nat)
    requires f != [] && clusters != [] && clusters[0] == c && j < |f[0]| && f[0][j] == dat && |dat| == bps
             && bps % ENTRY == 0
    requires AtSlot(slots, start, f, clusters, j, 0, bps) && Tracking(slots, start, before, num)
    ensures found ==> Answers(slots, num, st.cidx, st.off)
    ensures !found ==> AtSlot(slots, p, f, clusters, j + 1, 0, bps) && Tracking(slots, p, st, num)
  {
    hide AtSlot, Tracking, Answers, OnEntry;
    EntryStart(0);
    EntryStart(bps);
    st, found, p := before, false, start;
    var i: nat := 0;
    while i < bps && !found
      invariant OnEntry(i) && i <= bps
      invariant if found then Answers(slots, num, st.cidx, st.off)
                else AtSlot(slots, p, f, clusters, j, i, bps) && Tracking(slots, p, st, num)
      decreases bps - i, !found
    {
      EntryFits(i, bps);
      AtEntry(slots, p, f, clusters, j, i, bps);
      st, found := SearchEntry(dat[i], c, (j * bps + i) / ENTRY, st, num, slots, p);
      i, p := i + ENTRY, p + 1;
    }
    if !found {
      AtSector(slots, p, f, clusters, j, i, bps);
    }
  }

  // lines 233-257
  method SearchCluster(v: Volume, sidx: nat, c: nat, before: Search, num: nat, ghost d: Disk,
                       ghost slots: seq<Slot>, ghost start: nat, ghost f: File, ghost clusters: seq<nat>)
    returns (st: Search, found: bool, ghost p: nat)
    requires v.Valid() && v.Plain() == d && v.g.bps % ENTRY == 0
    requires f != [] && clusters != [] && clusters[0] == c && sidx + v.g.spc <= |d| && f[0] == d[sidx..sidx + v.g.spc]
    requires AtSlot(slots, start, f, clusters, 0, 0, v.g.bps) && Tracking(slots, start, before, num)
    modifies v.cache`disk, v.cache`lru, v.cache`trace, v.cache.flags, v.cache.sidx, v.cache.data
    modifies v.cache.links.prev, v.cache.links.next
    ensures v.Valid() && v.Plain() == d
    ensures found ==> Answers(slots, num, st.cidx, st.off)
    ensures !found ==> AtSlot(slots, p, f[1..], clusters[1..], 0, 0, v.g.bps) && Tracking(slots, p, st, num)
  {
    hide Volume.Valid, Volume.Plain, AtSlot, Tracking, Answers;
    st, found, p := before, false, start;
    var j: nat := 0;
    while j < v.g.spc && !found
      invariant j <= v.g.spc && v.Valid() && v.Plain() == d
      invariant if found then Answers(slots, num, st.cidx, st.off)
                else AtSlot(slots, p, f, clusters, j, 0, v.g.bps) && Tracking(slots, p, st, num)
      decreases v.g.spc - j, !found
    {
      var dat := v.ReadSector(sidx + j);
      st, found, p := SearchSector(dat, c, j, st, num, v.g.bps, slots, p, f, clusters);
      j := j + 1;
    }
    if !found {
      AtCluster(slots, p, f, clusters, j, 0, v.g.bps);
    }
  }

  /** Before or after a round: found, or the search goes on in cluster k, whose number is c. */
  ghost predicate Seeking(slots: seq<Slot>, p: nat, st: Search, num: nat, f: File, clusters: seq<nat>, k: nat, c: nat,
                          bps: nat, found: bool) {
    && k <= |clusters| && k <= |f|
    && if found then Answers(slots, num, st.cidx, st.off)
       else AtSlot(slots, p, f[k..], clusters[k..], 0, 0, bps) && Tracking(slots, p, st, num) && Reaches(clusters, k, c)
  }

  // one round of lines 232-260
  method SearchRound(v: Volume, c: nat, before: Search, num: nat, ghost d: Disk, ghost slots: seq<Slot>,
                     ghost start: nat,
                     ghost f: File, ghost clusters: seq<nat>, ghost k: nat)
    returns (st: Search, found: bool, next: nat, ghost p: nat)
    requires v.Valid() && v.Plain() == d && v.g.bps % ENTRY == 0 && f == Data(d, v.g, clusters) && c < CHAIN_END
    requires forall i: nat :: i < |clusters| ==> Linked(d, v.g, clusters, i)
    requires Seeking(slots, start, before, num, f, clusters, k, c, v.g.bps, false)
    modifies v.cache`disk, v.cache`lru, v.cache`trace, v.cache.flags, v.cache.sidx, v.cache.data
    modifies v.cache.links.prev, v.cache.links.next
    ensures v.Valid() && v.Plain() == d && k < |clusters|
    ensures Seeking(slots, p, st, num, f, clusters, k + 1, next, v.g.bps, found)
  {
    assert GeometryOk(v.g);
    hide Volume.Valid, AtSlot, Tracking, Answers, ClusterOk;
    assert Linked(d, v.g, clusters, k);
    EnterCluster(d, v.g, clusters, k);
    assert clusters[k..][1..] == clusters[k + 1..];
    st, found, p := SearchCluster(v, Clu2Sec(v.g, c), c, before, num, d, slots, start, f[k..], clusters[k..]);
    next := c;
    if !found {
      next := v.GetChain(c);
    }
  }

  /** fat32_search_in_dir_entry: the first run of num free entries, wherever sectors and clusters end. */
  method SearchInDir(v: Volume, dir: nat, num: nat, ghost d: Disk, ghost clusters: seq<nat>)
    returns (ok: bool, cidx: nat, off: nat)
    requires v.Valid() && v.Plain() == d && v.g.bps % ENTRY == 0 && IsChain(d, v.g, dir, clusters)
    modifies v.cache`disk, v.cache`lru, v.cache`trace, v.cache.flags, v.cache.sidx, v.cache.data
    modifies v.cache.links.prev, v.cache.links.next
    ensures v.Valid() && v.Plain() == d
    ensures ok ==> Answers(Entries(d, v.g, clusters), num, cidx, off)
    ensures !ok && num > 0 ==> forall s: nat :: !FreeRun(Entries(d, v.g, clusters), s, num)
    ensures num == 0 ==> !ok
  {
    ghost var f, slots, k: nat, p: nat := Data(d, v.g, clusters), Entries(d, v.g, clusters), 0, 0;
    assert GeometryOk(v.g);
    SeekingStart(slots, num, f, clusters, dir, v.g.bps);
    hide Volume.Valid, Volume.Plain, Linked, Slots, Data, Seeking, Answers;
    var c: nat, st := dir, Search(false, 0, 0, 0);
    var found := false;
    while c < CHAIN_END && !found
      invariant v.Valid() && v.Plain() == d && Seeking(slots, p, st, num, f, clusters, k, c, v.g.bps, found)
      decreases |clusters| - k, !found
    {
      st, found, c, p := SearchRound(v, c, st, num, d, slots, p, f, clusters, k);
      k := k + 1;
    }
    ok, cidx, off := found, st.cidx, st.off;
    SeekingEnds(d, v.g, slots, p, st, num, f, clusters, k, c, found);
  }

  lemma {:induction false} SeekingStart(slots: seq<Slot>, num: nat, f: File, clusters: seq<nat>, c: nat, bps: nat)
    requires slots == Slots(f, clusters, 0, 0, bps) && Reaches(clusters, 0, c)
    ensures Seeking(slots, 0, Search(false, 0, 0, 0), num, f, clusters, 0, c, bps, false)
  {
    EntriesStart(slots, f, clusters, bps);
    NothingYet(slots, num);
  }

  lemma SeekingEnds(d: Disk, g: Geometry, slots: seq<Slot>, p: nat, st: Search, num: nat, f: File, clusters: seq<nat>,
                    k: nat, c: nat,
                    found: bool)
    requires GeometryOk(g) && Seeking(slots, p, st, num, f, clusters, k, c, g.bps, found) && (found || c >= CHAIN_END)
    requires forall i: nat :: i < |clusters| ==> Linked(d, g, clusters, i)
    ensures found ==> Answers(slots, num, st.cidx, st.off) && num > 0
    ensures !found && num > 0 ==> forall s: nat :: !FreeRun(slots, s, num)
  {
    if !found {
      ChainEnds(d, g, clusters, k, c);
      AtEnd(slots, p, f[k..], clusters[k..], 0, 0, g.bps);
      NoRun(slots, st, num);
    }
  }

  /** A walk along the chain ends where its clusters end. */
  lemma ChainEnds(d: Disk, g: Geometry, clusters: seq<nat>, k: nat, c: nat)
    requires GeometryOk(g) && Reaches(clusters, k, c) && c >= CHAIN_END
    requires forall i: nat :: i < |clusters| ==> Linked(d, g, clusters, i)
    ensures k == |clusters|
  {
    assert k < |clusters| ==> Linked(d, g, clusters, k);
  }

  lemma {:induction false} EntriesStart(slots: seq<Slot>, f: File, clusters: seq<nat>, bps: nat)
    requires slots == Slots(f, clusters, 0, 0, bps)
    ensures f[0..] == f && clusters[0..] == clusters && AtSlot(slots, 0, f, clusters, 0, 0, bps)
  {
    assert slots[0..] == slots;
  }

  lemma NothingYet(slots: seq<Slot>, num: nat)
    ensures Tracking(slots, 0, Search(false, 0, 0, 0), num)
  {}

  lemma NoRun(slots: seq<Slot>, st: Search, num: nat)
    requires Tracking(slots, |slots|, st, num)
    ensures num > 0 ==> forall s: nat :: !FreeRun(slots, s, num)
  {}

  // ----- fat32_iter_start and fat32_iter_next

  /** cur_cidx, cur_sidx_offset, cur_byte_offset */
  datatype Iter = Iter(cidx: nat, sector: nat, byte: nat)

  function IterStart(dir: nat): Iter {
    Iter(dir, 0, 0)
  }

  /** The position after the entry at byte i of sector j of cluster c, when cluster next follows. */
  function Onward(g: Geometry, c: nat, j: nat, i: nat, next: nat): Iter {
    if i + ENTRY < g.bps then Iter(c, j, i + ENTRY)
    else if j + 1 < g.spc then Iter(c, j + 1, 0)
    else Iter(next, 0, 0)
  }

  predicate LastEntry(g: Geometry, j: nat, i: nat) {
    i + ENTRY >= g.bps && j + 1 >= g.spc
  }

  /** The iterator stands at sector j, byte i of cluster k of the chain. */
  predicate Stands(it: Iter, clusters: seq<nat>, k: nat, g: Geometry) {
    && Reaches(clusters, k, it.cidx)
    && (k < |clusters| ==> it.sector < g.spc && it.byte < g.bps && it.byte % ENTRY == 0)
    && (k == |clusters| ==> it.sector == 0 && it.byte == 0)
  }

  /** The entries still ahead of the iterator. */
  function Ahead(it: Iter, f: File, clusters: seq<nat>, k: nat, bps: nat): seq<Slot>
    requires k <= |f| && k <= |clusters|
  {
    Slots(f[k..], clusters[k..], it.sector, it.byte, bps)
  }

  datatype Outcome = Yield(obj: Object) | End | Undefined

  /** A scan in progress: p entries are used and the pieces are on the name stack. */
  predicate Scanning(slots: seq<Slot>, p: nat, pieces: seq<Option<seq<Byte>>>, root: nat, want: Scanned) {
    p <= |slots| && want == Bump(Scan(slots[p..], pieces, root), p)
  }

  lemma ScanningStep(slots: seq<Slot>, p: nat, pieces: seq<Option<seq<Byte>>>, root: nat, want: Scanned)
    requires Scanning(slots, p, pieces, root, want) && p < |slots|
    ensures var b := slots[p].bytes;
            if IsObject(b) then
              |b| == ENTRY
              && want == match MakeObject(b, pieces, root) case None => Fault case Some(o) => Found(o, p + 1)
            else if KindOf(b).LongName? && |pieces| >= FN_STACK then want == Fault
            else Scanning(slots, p + 1, NextPieces(b, pieces), root, want)
  {
    ScanStep(slots, p, pieces, root);
  }

  lemma ScanningEnd(slots: seq<Slot>, pieces: seq<Option<seq<Byte>>>, root: nat, want: Scanned)
    requires Scanning(slots, |slots|, pieces, root, want)
    ensures want == Finished
  {}

  /** What examining entries came to: nothing yet, an object, or a fault. */
  datatype Step = Going | Hit(obj: Object) | Faulted

  /** The scan stopped at the object in entry p, at byte i of sector j of f. */
  ghost predicate HitAt(slots: seq<Slot>, p: nat, f: File, clusters: seq<nat>, j: nat, i: nat, bps: nat, o: Object,
                        want: Scanned) {
    && f != [] && clusters != [] && j < |f[0]| && i < bps && i % ENTRY == 0
    && AtSlot(slots, p, f, clusters, j, i, bps) && p < |slots| && want == Found(o, p + 1)
    && (if o.FileObject? then KindOf(slots[p].bytes).FileEntry? else KindOf(slots[p].bytes).DirEntry?)
  }

  // lines 371-474: one entry
  method IterEntry(b: seq<Byte>, before: seq<Option<seq<Byte>>>, root: nat,
                   ghost slots: seq<Slot>, ghost p: nat, ghost want: Scanned)
    returns (r: Step, pieces: seq<Option<seq<Byte>>>)
    requires |b| == ENTRY && p < |slots| && slots[p].bytes == b && Scanning(slots, p, before, root, want)
    ensures r.Going? ==> Scanning(slots, p + 1, pieces, root, want)
    ensures r.Hit? ==>
              want == Found(r.obj, p + 1) && if r.obj.FileObject? then KindOf(b).FileEntry? else KindOf(b).DirEntry?
    ensures r.Faulted? ==> want == Fault
  {
    ScanningStep(slots, p, before, root, want);
    hide Scanning, Scan, ShortName, JoinPieces, CString;
    pieces := before;
    match KindOf(b)
    case FreeEntry =>
      r := Going;
    case LongName =>
      if |pieces| >= FN_STACK {
        r := Faulted;
      } else {
        r, pieces := Going, [Piece(b)] + pieces;
      }
    case OtherEntry =>
      r, pieces := Going, [];
    case _ =>
      var o := MakeObject(b, pieces, root);
      r := if o.Some? then Hit(o.value) else Faulted;
  }

  lemma HitHere(slots: seq<Slot>, p: nat, f: File, clusters: seq<nat>, j: nat, i: nat, bps: nat, o: Object,
                want: Scanned)
    requires f != [] && clusters != [] && j < |f[0]| && i < bps && OnEntry(i)
    requires AtSlot(slots, p, f, clusters, j, i, bps) && p < |slots| && want == Found(o, p + 1)
    requires if o.FileObject? then KindOf(slots[p].bytes).FileEntry? else KindOf(slots[p].bytes).DirEntry?
    ensures HitAt(slots, p, f, clusters, j, i, bps, o, want)
  {}

  // lines 368-476: sector j from byte i on
  method IterSector(dat: Sector, j: nat, first: nat, before: seq<Option<seq<Byte>>>, root: nat, bps: nat,
                    ghost slots: seq<Slot>, ghost start: nat, ghost f: File, ghost clusters: seq<nat>,
                        ghost want: Scanned)
    returns (r: Step, pieces: seq<Option<seq<Byte>>>, i: nat, ghost p: nat)
    requires f != [] && clusters != [] && j < |f[0]| && f[0][j] == dat && |dat| == bps
    requires bps % ENTRY == 0 && first % ENTRY == 0 && first <= bps
    requires AtSlot(slots, start, f, clusters, j, first, bps) && Scanning(slots, start, before, root, want)
    ensures r.Going? ==> AtSlot(slots, p, f, clusters, j + 1, 0, bps) && Scanning(slots, p, pieces, root, want)
    ensures r.Hit? ==> HitAt(slots, p, f, clusters, j, i, bps, r.obj, want)
    ensures r.Faulted? ==> want == Fault
  {
    hide AtSlot, Scanning, HitAt, KindOf, OnEntry, IsObject;
    EntryStart(first);
    EntryStart(bps);
    r, pieces, i, p := Going, before, first, start;
    while i < bps && r.Going?
      invariant OnEntry(i) && i <= bps
      invariant r.Going? ==> AtSlot(slots, p, f, clusters, j, i, bps) && Scanning(slots, p, pieces, root, want)
      invariant r.Hit? ==> HitAt(slots, p, f, clusters, j, i, bps, r.obj, want)
      invariant r.Faulted? ==> want == Fault
      decreases bps - i, r.Going?
    {
      EntryFits(i, bps);
      AtEntry(slots, p, f, clusters, j, i, bps);
      r, pieces := IterEntry(dat[i..i + ENTRY], pieces, root, slots, p, want);
      if r.Going? {
        i, p := i + ENTRY, p + 1;
      } else if r.Hit? {
        HitHere(slots, p, f, clusters, j, i, bps, r.obj, want);
      }
    }
    if r.Going? {
      AtSector(slots, p, f, clusters, j, i, bps);
    }
  }

  // lines 367-477: the cluster at sector sidx, from byte `byte` of its sector `first` on
  method IterCluster(v: Volume, sidx: nat, first: nat, byte: nat, before: seq<Option<seq<Byte>>>, ghost d: Disk,
                     ghost slots: seq<Slot>, ghost start: nat, ghost f: File, ghost clusters: seq<nat>,
                         ghost want: Scanned)
    returns (r: Step, pieces: seq<Option<seq<Byte>>>, j: nat, i: nat, ghost p: nat)
    requires v.Valid() && v.Plain() == d && v.g.bps % ENTRY == 0 && byte % ENTRY == 0 && byte < v.g.bps
             && first < v.g.spc
    requires f != [] && clusters != [] && sidx + v.g.spc <= |d| && f[0] == d[sidx..sidx + v.g.spc]
    requires AtSlot(slots, start, f, clusters, first, byte, v.g.bps) && Scanning(slots, start, before, v.g.root, want)
    modifies v.cache`disk, v.cache`lru, v.cache`trace, v.cache.flags, v.cache.sidx, v.cache.data
    modifies v.cache.links.prev, v.cache.links.next
    ensures v.Valid() && v.Plain() == d
    ensures r.Going? ==>
              AtSlot(slots, p, f[1..], clusters[1..], 0, 0, v.g.bps) && Scanning(slots, p, pieces, v.g.root, want)
    ensures r.Hit? ==> HitAt(slots, p, f, clusters, j, i, v.g.bps, r.obj, want)
    ensures r.Faulted? ==> want == Fault
  {
    hide Volume.Valid, Volume.Plain, AtSlot, Scanning, HitAt;
    var byteInit: nat := byte;
    r, pieces, j, i, p := Going, before, first, byte, start;
    while j < v.g.spc && r.Going?
      invariant j <= v.g.spc && byteInit % ENTRY == 0 && byteInit < v.g.bps && v.Valid() && v.Plain() == d
      invariant r.Going? ==>
                AtSlot(slots, p, f, clusters, j, byteInit, v.g.bps) && Scanning(slots, p, pieces, v.g.root, want)
      invariant r.Hit? ==> HitAt(slots, p, f, clusters, j, i, v.g.bps, r.obj, want)
      invariant r.Faulted? ==> want == Fault
      decreases v.g.spc - j, r.Going?
    {
      var dat := v.ReadSector(sidx + j);
      r, pieces, i, p := IterSector(dat, j, byteInit, pieces, v.g.root, v.g.bps, slots, p, f, clusters, want);
      if r.Going? {
        j, byteInit := j + 1, 0;
      }
    }
    if r.Going? {
      AtCluster(slots, p, f, clusters, j, byteInit, v.g.bps);
    }
  }

  /** Before or after a round: the scan goes on at `at` in cluster k, or stopped at an object or a fault. */
  ghost predicate Walking(g: Geometry, slots: seq<Slot>, p: nat, pieces: seq<Option<seq<Byte>>>, f: File,
                          clusters: seq<nat>, k: nat, at: Iter, r: Step, want: Scanned) {
    match r
    case Going =>
      && k <= |clusters| && k <= |f| && Stands(at, clusters, k, g)
      && AtSlot(slots, p, f[k..], clusters[k..], at.sector, at.byte, g.bps) && Scanning(slots, p, pieces, g.root, want)
    case Hit(o) =>
      && k < |clusters| && k < |f| && at.cidx == clusters[k]
      && HitAt(slots, p, f[k..], clusters[k..], at.sector, at.byte, g.bps, o, want)
    case Faulted => want == Fault
  }

  // one round of lines 363-480
  method IterRound(v: Volume, it: Iter, before: seq<Option<seq<Byte>>>, ghost d: Disk, ghost slots: seq<Slot>,
                   ghost start: nat, ghost f: File, ghost clusters: seq<nat>, ghost k: nat, ghost want: Scanned)
    returns (r: Step, pieces: seq<Option<seq<Byte>>>, at: Iter, ghost p: nat, ghost l: nat)
    requires v.Valid() && v.Plain() == d && v.g.bps % ENTRY == 0 && f == Data(d, v.g, clusters) && it.cidx < CHAIN_END
    requires forall i: nat :: i < |clusters| ==> Linked(d, v.g, clusters, i)
    requires Walking(v.g, slots, start, before, f, clusters, k, it, Going, want)
    modifies v.cache`disk, v.cache`lru, v.cache`trace, v.cache.flags, v.cache.sidx, v.cache.data
    modifies v.cache.links.prev, v.cache.links.next
    ensures v.Valid() && v.Plain() == d && Walking(v.g, slots, p, pieces, f, clusters, l, at, r, want)
    ensures k < |clusters| && l == if r.Going? then k + 1 else k
  {
    assert GeometryOk(v.g);
    hide Volume.Valid, AtSlot, Scanning, HitAt, ClusterOk;
    assert Linked(d, v.g, clusters, k);
    EnterCluster(d, v.g, clusters, k);
    assert clusters[k..][1..] == clusters[k + 1..];
    l := k;
    var j, i;
    r, pieces, j, i, p := IterCluster(v, Clu2Sec(v.g, it.cidx), it.sector, it.byte, before, d, slots, start, f[k..],
                                      clusters[k..], want);
    if r.Going? {
      var c := v.GetChain(it.cidx);
      at, l := Iter(c, 0, 0), k + 1;
    } else {
      at := Iter(it.cidx, j, i);
    }
  }

  /** Where the code leaves the iterator after an object in the entry `at`: right after it, except that as
      written it goes to the next cluster number after a directory in the last entry of a cluster. */
  function Leave(d: Disk, g: Geometry, at: Iter, o: Object, r: Reading): Iter
    requires GeometryOk(g)
  {
    Onward(g, at.cidx, at.sector, at.byte,
           if o.FileObject? || r.Intended? then Next(d, g, at.cidx) else at.cidx + 1)
  }

  /** The object that the call found is in the entry `at`, in cluster k of the chain. */
  ghost predicate FoundAt(g: Geometry, slots: seq<Slot>, f: File, clusters: seq<nat>, k: nat, at: Iter, o: Object) {
    var want := Scan(slots, [], g.root);
    && k < |clusters| && k < |f| && at.cidx == clusters[k] && want.Found? && want.used > 0
    && HitAt(slots, want.used - 1, f[k..], clusters[k..], at.sector, at.byte, g.bps, o, want)
  }

  // lines 412-424 and 459-463; as intended a directory is left as a file is
  method NextPosition(v: Volume, at: Iter, o: Object, reading: Reading, ghost d: Disk) returns (it: Iter)
    requires v.Valid() && v.Plain() == d && EntrySector(v.g, at.cidx) < |d| && at.sector < v.g.spc
             && at.byte + ENTRY <= v.g.bps
    modifies v.cache`disk, v.cache`lru, v.cache`trace, v.cache.flags, v.cache.sidx, v.cache.data
    modifies v.cache.links.prev, v.cache.links.next
    ensures v.Valid() && v.Plain() == d && it == Leave(d, v.g, at, o, reading)
  {
    hide Next, EntrySector;
    var byte, sector := (at.byte + ENTRY) % v.g.bps, at.sector + if (at.byte + ENTRY) / v.g.bps != 0 then 1 else 0;
    Wraps(at.byte + ENTRY, v.g.bps);
    Wraps(sector, v.g.spc);
    if o.FileObject? || reading.Intended? {
      if sector / v.g.spc != 0 {
        var c := v.GetChain(at.cidx);
        it := Iter(c, 0, byte);
      } else {
        it := Iter(at.cidx, sector, byte);
      }
    } else {
      it := Iter(at.cidx + if sector / v.g.spc != 0 then 1 else 0, sector % v.g.spc, byte);
    }
  }

  lemma Wraps(n: nat, m: nat)
    requires 0 < m && n <= m
    ensures n % m == (if n < m then n else 0) && n / m == if n < m then 0 else 1
  {}

  // lines 351-482 up to the entry of the object
  method IterFind(v: Volume, it: Iter, ghost d: Disk, ghost slots: seq<Slot>, ghost f: File, ghost clusters: seq<nat>,
                  ghost start: nat, ghost want: Scanned)
    returns (r: Step, at: Iter, ghost k: nat, ghost p: nat)
    requires v.Valid() && v.Plain() == d && v.g.bps % ENTRY == 0 && f == Data(d, v.g, clusters)
    requires forall i: nat :: i < |clusters| ==> Linked(d, v.g, clusters, i)
    requires Walking(v.g, slots, 0, [], f, clusters, start, it, Going, want)
    modifies v.cache`disk, v.cache`lru, v.cache`trace, v.cache.flags, v.cache.sidx, v.cache.data
    modifies v.cache.links.prev, v.cache.links.next
    ensures v.Valid() && v.Plain() == d
    ensures r.Going? ==> want == Finished
    ensures !r.Going? ==> Walking(v.g, slots, p, [], f, clusters, k, at, r, want)
  {
    assert GeometryOk(v.g);
    hide Volume.Valid, Volume.Plain, Walking, Linked, Data;
    r, at, k, p := Going, it, start, 0;
    var pieces: seq<Option<seq<Byte>>> := [];
    while at.cidx < CHAIN_END && r.Going?
      invariant v.Valid() && v.Plain() == d && Walking(v.g, slots, p, pieces, f, clusters, k, at, r, want)
      decreases |clusters| - k, r.Going?
    {
      r, pieces, at, p, k := IterRound(v, at, pieces, d, slots, p, f, clusters, k, want);
    }
    WalkEnds(d, v.g, slots, p, pieces, f, clusters, k, at, r, want);
  }

  lemma WalkEnds(d: Disk, g: Geometry, slots: seq<Slot>, p: nat, pieces: seq<Option<seq<Byte>>>, f: File,
                 clusters: seq<nat>, k: nat, at: Iter, r: Step, want: Scanned)
    requires GeometryOk(g) && Walking(g, slots, p, pieces, f, clusters, k, at, r, want)
    requires forall i: nat :: i < |clusters| ==> Linked(d, g, clusters, i)
    requires r.Going? ==> at.cidx >= CHAIN_END
    ensures r.Going? ==> want == Finished
    ensures !r.Going? ==> Walking(g, slots, p, [], f, clusters, k, at, r, want)
  {
    if r.Going? {
      ChainEnds(d, g, clusters, k, at.cidx);
      AtEnd(slots, p, f[k..], clusters[k..], at.sector, at.byte, g.bps);
      ScanningEnd(slots, pieces, g.root, want);
    }
  }

  /** fat32_iter_next: the next object, or false at the end of the chain. */
  method IterNext(v: Volume, it: Iter, reading: Reading, ghost d: Disk, ghost f: File, ghost clusters: seq<nat>,
                  ghost start: nat)
    returns (out: Outcome, next: Iter, at: Iter, ghost k: nat)
    requires v.Valid() && v.Plain() == d && v.g.bps % ENTRY == 0 && f == Data(d, v.g, clusters)
    requires start <= |clusters| && Stands(it, clusters, start, v.g)
    requires forall i: nat :: i < |clusters| ==> Linked(d, v.g, clusters, i)
    modifies v.cache`disk, v.cache`lru, v.cache`trace, v.cache.flags, v.cache.sidx, v.cache.data
    modifies v.cache.links.prev, v.cache.links.next
    ensures v.Valid() && v.Plain() == d
    ensures var slots := Ahead(it, f, clusters, start, v.g.bps);
            && (out.End? ==> Scan(slots, [], v.g.root).Finished?)
            && (out.Undefined? ==> Scan(slots, [], v.g.root).Fault?)
            && (out.Yield? ==> FoundAt(v.g, slots, f, clusters, k, at, out.obj)
                               && next == Leave(d, v.g, at, out.obj, reading))
  {
    ghost var slots := Ahead(it, f, clusters, start, v.g.bps);
    ScanningStart(slots, v.g.root, f, clusters, start, it, v.g.bps);
    hide Volume.Plain, Scanning, Scan, Slots, Clu2Sec, EntrySector, Next;
    var r;
    ghost var p;
    r, at, k, p := IterFind(v, it, d, slots, f, clusters, start, Scan(slots, [], v.g.root));
    next := at;
    match r
    case Going =>
      out := End;
    case Faulted =>
      out := Undefined;
    case Hit(o) =>
      out := Yield(o);
      assert Linked(d, v.g, clusters, k);
      next := NextPosition(v, at, o, reading, d);
  }

  lemma {:induction false} ScanningStart(slots: seq<Slot>, root: nat, f: File, clusters: seq<nat>, k: nat, it: Iter,
                                         bps: nat)
    requires k <= |f| && k <= |clusters| && slots == Ahead(it, f, clusters, k, bps)
    ensures Scanning(slots, 0, [], root, Scan(slots, [], root))
    ensures AtSlot(slots, 0, f[k..], clusters[k..], it.sector, it.byte, bps)
  {
    assert slots[0..] == slots;
  }

  // ----- resuming

  /** The code resumes in the right place: always as intended; as written after a file, or not at the end of a
      cluster, or when the chain goes on with the next cluster number (or ends, and so does cluster numbering). */
  predicate ResumesRight(g: Geometry, clusters: seq<nat>, k: nat, at: Iter, o: Object, r: Reading) {
    r.Intended? || o.FileObject? || !LastEntry(g, at.sector, at.byte) || Reaches(clusters, k + 1, at.cidx + 1)
  }

  /** The cluster that holds the entry after `at`. */
  function Onto(g: Geometry, k: nat, at: Iter): nat {
    if LastEntry(g, at.sector, at.byte) then k + 1 else k
  }

  /** Line 462 against lines 421-424: the iterator is left in the chain, right after the object, exactly when
      ResumesRight; otherwise it stands in a cluster that is not the next one of the chain. */
  lemma StandsIffResumesRight(d: Disk, g: Geometry, f: File, clusters: seq<nat>, slots: seq<Slot>, k: nat, at: Iter,
                              o: Object, r: Reading)
    requires GeometryOk(g) && f == Data(d, g, clusters) && Linked(d, g, clusters, k) && g.bps % ENTRY == 0
    requires FoundAt(g, slots, f, clusters, k, at, o)
    ensures Stands(Leave(d, g, at, o, r), clusters, Onto(g, k, at), g) <==> ResumesRight(g, clusters, k, at, o, r)
  {
    hide Scan, AtSlot, Next, Clu2Sec, EntrySector;
    assert at.sector < g.spc && at.byte + ENTRY <= g.bps;
  }

  /** Right after the object means: everything not yet yielded is still ahead. */
  lemma {:induction false} AheadAfter(g: Geometry, f: File, clusters: seq<nat>, slots: seq<Slot>, k: nat, at: Iter,
                                      o: Object, next: Iter)
    requires GeometryOk(g) && |f| == |clusters| && (k < |f| ==> |f[k]| == g.spc) && g.bps % ENTRY == 0
    requires FoundAt(g, slots, f, clusters, k, at, o)
    requires next == Onward(g, at.cidx, at.sector, at.byte, next.cidx)
    ensures Onto(g, k, at) <= |clusters| && Scan(slots, [], g.root).used <= |slots|
    ensures Ahead(next, f, clusters, Onto(g, k, at), g.bps) == slots[Scan(slots, [], g.root).used..]
  {
    hide Scan;
    var n, fk, ck, j, i := Scan(slots, [], g.root).used, f[k..], clusters[k..], at.sector, at.byte;
    AtEntry(slots, n - 1, fk, ck, j, i, g.bps);
    if i + ENTRY >= g.bps {
      AtSector(slots, n, fk, ck, j, i + ENTRY, g.bps);
      if j + 1 >= g.spc {
        AtCluster(slots, n, fk, ck, j + 1, 0, g.bps);
        assert fk[1..] == f[k + 1..] && ck[1..] == clusters[k + 1..];
      }
    }
  }

  /** As written, the call resumes right after a directory exactly when the directory is placed so. */
  lemma {:induction false} ResumesIffPlaced(g: Geometry, f: File, clusters: seq<nat>, whole: seq<Slot>, q: nat,
                                            k: nat, at: Iter, o: Object)
    requires q <= |whole| && GeometryOk(g) && |f| == |clusters| && g.bps % ENTRY == 0
    requires forall m :: 0 <= m < |f| ==> |f[m]| == g.spc
    requires FoundAt(g, whole[q..], f, clusters, k, at, o) && o.DirObject?
    ensures var n := Scan(whole[q..], [], g.root).used;
            ResumesRight(g, clusters, k, at, o, AsWritten) <==> SlotPlaced(whole, q + n - 1)
  {
    hide Scan, Slots;
    var slots, n, fk, ck := whole[q..], Scan(whole[q..], [], g.root).used, f[k..], clusters[k..];
    var j, i := at.sector, at.byte;
    AtEntry(slots, n - 1, fk, ck, j, i, g.bps);
    LastAligned(i, g.bps);
    assert whole[q + n - 1] == slots[n - 1];
    if !LastEntry(g, j, i) {
      SameCluster(slots, n, fk, ck, j, i, g.bps);
    } else {
      AtSector(slots, n, fk, ck, j, i + ENTRY, g.bps);
      AtCluster(slots, n, fk, ck, j + 1, 0, g.bps);
      assert fk[1..] == f[k + 1..] && ck[1..] == clusters[k + 1..];
      if k + 1 < |clusters| {
        AtEntry(slots, n, f[k + 1..], clusters[k + 1..], 0, 0, g.bps);
      } else {
        AtEnd(slots, n, f[k + 1..], clusters[k + 1..], 0, 0, g.bps);
      }
    }
  }

  /** The next entry of the same cluster is not its first. */
  lemma SameCluster(slots: seq<Slot>, n: nat, f: File, clusters: seq<nat>, j: nat, i: nat, bps: nat)
    requires f != [] && clusters != [] && j < |f[0]| && OnEntry(bps) && OnEntry(i) && i < bps
    requires AtSlot(slots, n, f, clusters, j, i + ENTRY, bps) && (i + ENTRY < bps || j + 1 < |f[0]|)
    ensures n < |slots| && slots[n].off != 0
  {
    hide Slots;
    if i + ENTRY < bps {
      AtEntry(slots, n, f, clusters, j, i + ENTRY, bps);
      NotFirst(j, bps, i + ENTRY);
    } else {
      AtSector(slots, n, f, clusters, j, i + ENTRY, bps);
      AtEntry(slots, n, f, clusters, j + 1, 0, bps);
      NotFirst(j, bps, bps);
      assert (j + 1) * bps == j * bps + bps;
    }
  }

  lemma NotFirst(j: nat, bps: nat, i: nat)
    requires i >= ENTRY
    ensures (j * bps + i) / ENTRY != 0
  {
    ProductLe(0, j, bps);
  }

  lemma LastAligned(i: nat, bps: nat)
    requires i % ENTRY == 0 && bps % ENTRY == 0 && i < bps
    ensures i + ENTRY >= bps <==> i + ENTRY == bps
  {}

  /** all is what was listed and then the rest. */
  predicate Listed(all: Option<seq<Object>>, objs: seq<Object>, rest: Option<seq<Object>>) {
    all == if rest.None? then None else Some(objs + rest.value)
  }

  lemma {:induction false} ListedOne(all: Option<seq<Object>>, objs: seq<Object>, slots: seq<Slot>, root: nat,
                                     r: Scanned)
    requires Listed(all, objs, Objects(slots, [], root)) && r == Scan(slots, [], root)
    ensures r.Finished? ==> all == Some(objs)
    ensures r.Fault? ==> all == None
    ensures r.Found? ==> 0 < r.used <= |slots| && Listed(all, objs + [r.obj], Objects(slots[r.used..], [], root))
  {
    ScanResumes(slots, [], root);
    assert objs + [] == objs;
    if r.Found? {
      var rest := Objects(slots[r.used..], [], root);
      if rest.Some? { assert objs + ([r.obj] + rest.value) == (objs + [r.obj]) + rest.value; }
    }
  }

  /** The call that found this object resumes right: as written because its directory is placed so. */
  lemma CallResumesRight(g: Geometry, f: File, clusters: seq<nat>, whole: seq<Slot>, q: nat, k: nat, at: Iter,
                         o: Object, r: Reading)
    requires q <= |whole| && GeometryOk(g) && |f| == |clusters| && g.bps % ENTRY == 0
    requires forall m :: 0 <= m < |f| ==> |f[m]| == g.spc
    requires FoundAt(g, whole[q..], f, clusters, k, at, o) && (r.Intended? || CallsRight(whole, q, g.root))
    ensures ResumesRight(g, clusters, k, at, o, r)
    ensures var n := Scan(whole[q..], [], g.root).used;
            n <= |whole[q..]| && (r.Intended? || CallsRight(whole, q + n, g.root))
  {
    hide Scan, AtSlot, Slots;
    if r.AsWritten? && o.DirObject? { ResumesIffPlaced(g, f, clusters, whole, q, k, at, o); }
  }

  /** One call of the iterator, and where it is then: before entry q' of the directory. */
  method ListStep(v: Volume, it: Iter, reading: Reading, ghost d: Disk, ghost f: File, ghost clusters: seq<nat>,
                  ghost start: nat, ghost whole: seq<Slot>, ghost q: nat,
                  ghost all: Option<seq<Object>>, objs: seq<Object>)
    returns (out: Outcome, next: Iter, ghost k: nat, ghost q': nat)
    requires v.Valid() && v.Plain() == d && v.g.bps % ENTRY == 0 && f == Data(d, v.g, clusters)
    requires start <= |clusters| && Stands(it, clusters, start, v.g)
    requires forall i: nat :: i < |clusters| ==> Linked(d, v.g, clusters, i)
    requires q <= |whole| && Ahead(it, f, clusters, start, v.g.bps) == whole[q..]
    requires reading.Intended? || CallsRight(whole, q, v.g.root)
    requires Listed(all, objs, Objects(whole[q..], [], v.g.root))
    modifies v.cache`disk, v.cache`lru, v.cache`trace, v.cache.flags, v.cache.sidx, v.cache.data
    modifies v.cache.links.prev, v.cache.links.next
    ensures v.Valid() && v.Plain() == d
    ensures out.End? ==> all == Some(objs)
    ensures out.Undefined? ==> all == None
    ensures out.Yield? ==>
              && k <= |clusters| && Stands(next, clusters, k, v.g)
              && q < q' <= |whole| && Ahead(next, f, clusters, k, v.g.bps) == whole[q'..]
              && (reading.Intended? || CallsRight(whole, q', v.g.root))
              && Listed(all, objs + [out.obj], Objects(whole[q'..], [], v.g.root))
  {
    hide Scan, Objects, AtSlot, Slots, Next, Stands, CallsRight, Listed, ClusterOk, Clu2Sec, EntrySector;
    assert GeometryOk(v.g);
    hide Volume.Valid, Volume.Plain;
    ListedOne(all, objs, whole[q..], v.g.root, Scan(whole[q..], [], v.g.root));
    var at;
    out, next, at, k := IterNext(v, it, reading, d, f, clusters, start);
    q' := q;
    if out.Yield? {
      assert Linked(d, v.g, clusters, k);
      CallResumesRight(v.g, f, clusters, whole, q, k, at, out.obj, reading);
      StandsIffResumesRight(d, v.g, f, clusters, whole[q..], k, at, out.obj, reading);
      AheadAfter(v.g, f, clusters, whole[q..], k, at, out.obj, next);
      ghost var n := Scan(whole[q..], [], v.g.root).used;
      assert whole[q..][n..] == whole[q + n..];
      k, q' := Onto(v.g, k, at), q + n;
    }
  }

  /** Repeated fat32_iter_next from fat32_iter_start: what one uninterrupted scan finds, then false; as written,
      where every call resumes right after its object. */
  method ListAll(v: Volume, dir: nat, reading: Reading, ghost d: Disk, ghost clusters: seq<nat>)
    returns (all: Option<seq<Object>>)
    requires v.Valid() && v.Plain() == d && v.g.bps % ENTRY == 0 && IsChain(d, v.g, dir, clusters)
    requires reading.Intended? || CallsRight(Entries(d, v.g, clusters), 0, v.g.root)
    modifies v.cache`disk, v.cache`lru, v.cache`trace, v.cache.flags, v.cache.sidx, v.cache.data
    modifies v.cache.links.prev, v.cache.links.next
    ensures v.Valid() && v.Plain() == d && all == Objects(Entries(d, v.g, clusters), [], v.g.root)
  {
    ghost var f, k: nat, whole, q: nat := Data(d, v.g, clusters), 0, Entries(d, v.g, clusters), 0;
    ghost var want := Objects(whole, [], v.g.root);
    var it, objs := IterStart(dir), [];
    assert f[0..] == f && clusters[0..] == clusters && whole[0..] == whole;
    assert GeometryOk(v.g);
    assert want.Some? ==> [] + want.value == want.value;
    hide Volume.Valid, Volume.Plain, Objects, Slots, Linked, CallsRight;
    while true
      invariant v.Valid() && v.Plain() == d && k <= |clusters| && Stands(it, clusters, k, v.g)
      invariant q <= |whole| && Ahead(it, f, clusters, k, v.g.bps) == whole[q..]
      invariant reading.Intended? || CallsRight(whole, q, v.g.root)
      invariant Listed(want, objs, Objects(whole[q..], [], v.g.root))
      decreases |whole| - q
    {
      var out;
      out, it, k, q := ListStep(v, it, reading, d, f, clusters, k, whole, q, want, objs);
      match out
      case End => return Some(objs);
      case Undefined => return None;
      case Yield(o) => objs := objs + [o];
    }
  }
}
