/** The write-back sector buffers of kernel/fat32.c as a value, and the plain array of sectors they stand for. */
module CacheState {
  import opened Collections
  import opened Recency

  type Byte = x: int | 0 <= x < 256

  type Sector = seq<Byte>

  // FAT32_BIO_FLAG_INVALID, _CLEAN, _DIRTY
  datatype Flag = Invalid | Clean | Dirty

  /** buf_flags, buf_sidx, the buffer contents, the LRU list buf_seq (least recent first) and the disk,
      whose sector s of the volume is sector s + dsidx. */
  datatype Cache = Cache(flags: seq<Flag>, sidx: seq<nat>, data: seq<Sector>, lru: seq<nat>, disk: seq<Sector>,
                         dsidx: nat)

  predicate Holds(c: Cache, i: nat, s: nat) {
    i < |c.flags| && i < |c.sidx| && c.flags[i] != Invalid && c.sidx[i] == s
  }

  ghost predicate Buffered(c: Cache, s: nat) {
    exists i: nat :: Holds(c, i, s)
  }

  /** Sector s is on the disk. */
  predicate OnDisk(c: Cache, s: nat) {
    s + c.dsidx < |c.disk|
  }

  ghost predicate Sized(c: Cache, bps: nat) {
    && |c.flags| == |c.sidx| == |c.data|
    && (forall i :: 0 <= i < |c.data| ==> |c.data[i]| == bps)
    && (forall i :: 0 <= i < |c.disk| ==> |c.disk[i]| == bps)
  }

  /** Valid buffers hold distinct sectors of the disk, and clean ones hold what the disk holds. */
  ghost predicate Coherent(c: Cache) {
    && |c.flags| == |c.sidx| == |c.data|
    && (forall i: nat, j: nat, s: nat :: Holds(c, i, s) && Holds(c, j, s) ==> i == j)
    && (forall i: nat, s: nat :: Holds(c, i, s) ==> OnDisk(c, s))
    && (forall i: nat, s: nat :: Holds(c, i, s) && c.flags[i] == Clean ==> c.data[i] == c.disk[s + c.dsidx])
  }

  /** What a plain array of sectors would hold at s. */
  ghost function Logical(c: Cache, s: nat): Sector
    requires |c.flags| == |c.sidx| == |c.data| && OnDisk(c, s)
  {
    if i: nat :| Holds(c, i, s) then c.data[i] else c.disk[s + c.dsidx]
  }

  ghost predicate SameContents(c: Cache, d: Cache) {
    && |c.disk| == |d.disk| && c.dsidx == d.dsidx
    && |c.flags| == |c.sidx| == |c.data| && |d.flags| == |d.sidx| == |d.data|
    && forall s: nat :: OnDisk(c, s) ==> Logical(c, s) == Logical(d, s)
  }

  /** Sectors of the volume. */
  function Volume(c: Cache): nat {
    if c.dsidx <= |c.disk| then |c.disk| - c.dsidx else 0
  }

  /** The plain array of sectors that the buffers and the disk stand for. */
  ghost function Contents(c: Cache): (d: seq<Sector>)
    requires |c.flags| == |c.sidx| == |c.data|
    ensures |d| == Volume(c)
  {
    seq(Volume(c), s requires 0 <= s < Volume(c) => Logical(c, s))
  }

  lemma SameContentsEqual(c: Cache, d: Cache)
    requires SameContents(c, d)
    ensures Contents(c) == Contents(d)
  {}

  lemma LogicalIs(c: Cache, i: nat, s: nat)
    requires Coherent(c) && Holds(c, i, s)
    ensures OnDisk(c, s) && Logical(c, s) == c.data[i]
  {}

  // ----- the steps that touch one buffer

  // fat32_bio_writeback_no_check
  function WriteBack(c: Cache, i: nat): Cache
    requires i < |c.flags| && i < |c.sidx| && i < |c.data| && OnDisk(c, c.sidx[i])
  {
    c.(disk := c.disk[c.sidx[i] + c.dsidx := c.data[i]], flags := c.flags[i := Clean])
  }

  lemma WriteBackKeeps(c: Cache, i: nat, bps: nat)
    requires Sized(c, bps) && Coherent(c) && i < |c.flags| && c.flags[i] != Invalid
    ensures OnDisk(c, c.sidx[i])
    ensures Sized(WriteBack(c, i), bps) && Coherent(WriteBack(c, i)) && SameContents(c, WriteBack(c, i))
  {
    assert Holds(c, i, c.sidx[i]);
    var d := WriteBack(c, i);
    assert forall j: nat, s: nat :: Holds(d, j, s) <==> Holds(c, j, s);
    forall s: nat | OnDisk(c, s) ensures Logical(c, s) == Logical(d, s) {
      if j: nat :| Holds(c, j, s) {
        LogicalIs(c, j, s);
        assert Holds(d, j, s);
      }
    }
  }

  // lines 63-64: the buffer leaves the cache
  function Drop(c: Cache, i: nat): Cache
    requires i < |c.flags|
  {
    c.(flags := c.flags[i := Invalid], lru := Without(c.lru, i))
  }

  /** Dropping a clean buffer loses nothing. */
  lemma DropKeeps(c: Cache, i: nat, bps: nat)
    requires Sized(c, bps) && Coherent(c) && i < |c.flags| && c.flags[i] == Clean
    ensures Sized(Drop(c, i), bps) && Coherent(Drop(c, i)) && SameContents(c, Drop(c, i))
    ensures !Buffered(Drop(c, i), c.sidx[i])
    ensures forall s: nat :: s != c.sidx[i] ==> (Buffered(Drop(c, i), s) <==> Buffered(c, s))
  {
    var d := Drop(c, i);
    assert Holds(c, i, c.sidx[i]);
    assert forall j: nat, s: nat :: Holds(d, j, s) <==> Holds(c, j, s) && j != i;
    forall s: nat | OnDisk(c, s) ensures Logical(c, s) == Logical(d, s) {
      if j: nat :| Holds(c, j, s) {
        LogicalIs(c, j, s);
        if j != i { assert Holds(d, j, s); LogicalIs(d, j, s); }
      }
    }
  }

  // lines 73-76
  function Fill(c: Cache, i: nat, s: nat): Cache
    requires i < |c.flags| && i < |c.sidx| && i < |c.data| && OnDisk(c, s)
  {
    c.(data := c.data[i := c.disk[s + c.dsidx]], flags := c.flags[i := Clean], sidx := c.sidx[i := s],
       lru := c.lru + [i])
  }

  lemma FillKeeps(c: Cache, i: nat, s: nat, bps: nat)
    requires Sized(c, bps) && Coherent(c) && i < |c.flags| && c.flags[i] == Invalid && OnDisk(c, s) && !Buffered(c, s)
    ensures Sized(Fill(c, i, s), bps) && Coherent(Fill(c, i, s)) && SameContents(c, Fill(c, i, s))
    ensures Holds(Fill(c, i, s), i, s)
  {
    var d := Fill(c, i, s);
    assert forall j: nat, t: nat :: Holds(d, j, t) <==> (Holds(c, j, t) && j != i) || (j == i && t == s);
    forall j: nat, k: nat, t: nat | Holds(d, j, t) && Holds(d, k, t) ensures j == k {}
    forall t: nat | OnDisk(c, t) ensures Logical(c, t) == Logical(d, t) {
      if j: nat :| Holds(d, j, t) {
        LogicalIs(d, j, t);
        if j != i { LogicalIs(c, j, t); }
      }
    }
  }

  /** Storing into a buffer, which becomes dirty. */
  function Modify(c: Cache, i: nat, bytes: Sector): Cache
    requires i < |c.flags| && i < |c.data|
  {
    c.(data := c.data[i := bytes], flags := c.flags[i := Dirty])
  }

  /** The store changes that one sector of the plain array. */
  lemma ModifyWrites(c: Cache, i: nat, bytes: Sector, bps: nat)
    requires Sized(c, bps) && Coherent(c) && i < |c.flags| && c.flags[i] != Invalid && |bytes| == bps
    ensures var d := Modify(c, i, bytes);
            && Sized(d, bps) && Coherent(d) && OnDisk(c, c.sidx[i])
            && forall s: nat :: OnDisk(c, s) ==> Logical(d, s) == if s == c.sidx[i] then bytes else Logical(c, s)
  {
    var d := Modify(c, i, bytes);
    assert Holds(c, i, c.sidx[i]);
    assert forall j: nat, s: nat :: Holds(d, j, s) <==> Holds(c, j, s);
    forall s: nat | OnDisk(c, s) ensures Logical(d, s) == if s == c.sidx[i] then bytes else Logical(c, s) {
      if j: nat :| Holds(c, j, s) {
        LogicalIs(c, j, s);
        assert Holds(d, j, s);
        LogicalIs(d, j, s);
      }
    }
  }

  /** With no dirty buffer the disk is the plain array. */
  lemma CleanMeansOnDisk(c: Cache, s: nat)
    requires Coherent(c) && OnDisk(c, s) && forall i :: 0 <= i < |c.flags| ==> c.flags[i] != Dirty
    ensures Logical(c, s) == c.disk[s + c.dsidx]
  {}

  // ----- the LRU list

  ghost predicate Bounded(lru: seq<nat>, n: nat) {
    forall k :: 0 <= k < |lru| ==> lru[k] < n
  }

  function Sectors(lru: seq<nat>, sidx: seq<nat>): (s: seq<nat>)
    requires Bounded(lru, |sidx|)
    ensures |s| == |lru|
  {
    seq(|lru|, k requires 0 <= k < |lru| => sidx[lru[k]])
  }

  /** The list holds exactly the valid buffers, and their sectors are the last ones accessed, in order. */
  ghost predicate LruOk(c: Cache, trace: seq<nat>) {
    && |c.flags| == |c.sidx|
    && Distinct(c.lru)
    && Bounded(c.lru, |c.flags|)
    && (forall i: nat :: i < |c.flags| ==> (i in c.lru <==> c.flags[i] != Invalid))
    && Sectors(c.lru, c.sidx) == LastN(ByLastAccess(trace), |c.flags|)
  }

  lemma SectorsDistinct(c: Cache)
    requires Coherent(c) && Distinct(c.lru) && Bounded(c.lru, |c.flags|)
    requires forall k :: 0 <= k < |c.lru| ==> c.flags[c.lru[k]] != Invalid
    ensures Distinct(Sectors(c.lru, c.sidx))
  {
    forall k, l | 0 <= k < l < |c.lru| ensures c.sidx[c.lru[k]] != c.sidx[c.lru[l]] {
      assert Holds(c, c.lru[k], c.sidx[c.lru[k]]) && Holds(c, c.lru[l], c.sidx[c.lru[l]]);
    }
  }

  lemma {:induction false} SectorsWithout(lru: seq<nat>, sidx: seq<nat>, i: nat)
    requires Bounded(lru, |sidx|)
    requires i in lru && Distinct(lru) && Distinct(Sectors(lru, sidx))
    ensures i < |sidx|
    ensures Bounded(Without(lru, i), |sidx|)
    ensures Sectors(Without(lru, i), sidx) == Without(Sectors(lru, sidx), sidx[i])
    decreases |lru|
  {
    var s := Sectors(lru, sidx);
    assert Sectors(lru[1..], sidx) == s[1..];
    if lru[0] != i {
      var k :| 0 <= k < |lru| && lru[k] == i;
      assert s[0] != s[k];
      SectorsWithout(lru[1..], sidx, i);
      assert Sectors([lru[0]] + Without(lru[1..], i), sidx) == [s[0]] + Sectors(Without(lru[1..], i), sidx);
    }
  }

  /** A buffered sector is on the list. */
  lemma {:induction false} BufferedIffListed(c: Cache, trace: seq<nat>, s: nat)
    requires LruOk(c, trace)
    ensures Buffered(c, s) <==> s in LastN(ByLastAccess(trace), |c.flags|)
  {
    var l := Sectors(c.lru, c.sidx);
    if i: nat :| Holds(c, i, s) {
      assert i in c.lru;
      var k :| 0 <= k < |c.lru| && c.lru[k] == i;
      assert l[k] == s;
    }
    if s in l {
      var k :| 0 <= k < |l| && l[k] == s;
      assert c.lru[k] in c.lru;
      assert Holds(c, c.lru[k], s);
    }
  }

  // lines 46-47: buffer i becomes the most recent one
  function Touch(c: Cache, i: nat): Cache {
    c.(lru := Without(c.lru, i) + [i])
  }

  lemma TouchKeeps(c: Cache, i: nat, bps: nat)
    requires Sized(c, bps) && Coherent(c)
    ensures Sized(Touch(c, i), bps) && Coherent(Touch(c, i)) && SameContents(c, Touch(c, i))
  {
    var d := Touch(c, i);
    assert forall j: nat, t: nat :: Holds(d, j, t) <==> Holds(c, j, t);
  }

  /** A hit: touching the buffer of s is one more access of s. */
  lemma TouchHit(c: Cache, trace: seq<nat>, i: nat, s: nat)
    requires Coherent(c) && LruOk(c, trace) && Holds(c, i, s)
    ensures LruOk(Touch(c, i), trace + [s])
  {
    hide Without, LastN, ByLastAccess;
    var d := Touch(c, i);
    WithoutFacts(c.lru, i);
    SectorsDistinct(c);
    SectorsWithout(c.lru, c.sidx, i);
    BufferedIffListed(c, trace, s);
    AccessKeepsLastN(trace, |c.flags|, s);
    assert i in c.lru;
    assert Sectors(d.lru, d.sidx) == Sectors(Without(c.lru, i), c.sidx) + [s];
  }

  lemma {:induction false} AppendTouch(lru: seq<nat>, i: nat)
    requires i !in lru
    ensures Without(lru + [i], i) + [i] == lru + [i]
  {
    WithoutConcat(lru, [i], i);
    assert Without([i], i) == [];
  }

  lemma SectorsFrame(lru: seq<nat>, sidx: seq<nat>, i: nat, s: nat)
    requires Bounded(lru, |sidx|) && i < |sidx| && i !in lru
    ensures Bounded(lru + [i], |sidx|)
    ensures Sectors(lru + [i], sidx[i := s]) == Sectors(lru, sidx) + [s]
  {}

  /** A miss with a free buffer: filling it and touching it is one access of s. */
  lemma TouchMiss(c: Cache, trace: seq<nat>, i: nat, s: nat)
    requires Coherent(c) && LruOk(c, trace) && i < |c.flags| && c.flags[i] == Invalid
    requires OnDisk(c, s) && !Buffered(c, s)
    ensures LruOk(Touch(Fill(c, i, s), i), trace + [s])
  {
    AppendTouch(c.lru, i);
    BufferedIffListed(c, trace, s);
    AccessKeepsLastN(trace, |c.flags|, s);
    ListShorter(c.lru, |c.flags|, i);
    SectorsFrame(c.lru, c.sidx, i, s);
  }

  /** A list of distinct buffers that misses one is shorter than the number of buffers. */
  lemma ListShorter(lru: seq<nat>, n: nat, i: nat)
    requires Distinct(lru) && i < n && i !in lru && Bounded(lru, n)
    ensures |lru| < n
  {
    DistinctCount(lru);
    assert Elements(lru) <= Below(n) - {i};
    SubsetSize(Elements(lru), Below(n) - {i});
  }

  /** A miss with every buffer taken: the buffer at the head of the list holds the sector accessed longest
      ago; replacing it is one access of s. */
  lemma {:induction false} TouchEvict(c: Cache, trace: seq<nat>, s: nat)
    requires Coherent(c) && LruOk(c, trace) && c.flags != [] && forall i :: 0 <= i < |c.flags| ==> c.flags[i] != Invalid
    requires OnDisk(c, s) && !Buffered(c, s)
    ensures c.lru != [] && c.lru[0] < |c.flags| && c.sidx[c.lru[0]] == LastN(ByLastAccess(trace), |c.flags|)[0]
    ensures var i := c.lru[0];
            var d := Drop(c, i);
            LruOk(Touch(Fill(d, i, s), i), trace + [s])
  {
    assert 0 in c.lru;
    var i := c.lru[0];
    assert i in c.lru;
    var rest := c.lru[1..];
    assert c.lru == [i] + rest;
    assert i !in rest;
    assert Without(c.lru, i) == rest;
    EvictOrder(c, trace, s, rest);
  }

  lemma {:induction false} EvictOrder(c: Cache, trace: seq<nat>, s: nat, rest: seq<nat>)
    requires LruOk(c, trace) && c.flags != [] && forall i :: 0 <= i < |c.flags| ==> c.flags[i] != Invalid
    requires c.lru != [] && rest == c.lru[1..] && !Buffered(c, s) && c.lru[0] !in rest
    ensures var i := c.lru[0];
            && Without(rest + [i], i) + [i] == rest + [i] && Bounded(rest + [i], |c.sidx|)
            && Sectors(rest + [i], c.sidx[i := s]) == LastN(ByLastAccess(trace + [s]), |c.flags|)
  {
    hide ByLastAccess, LastN, Coherent, Holds;
    var i := c.lru[0];
    AppendTouch(rest, i);
    BufferedIffListed(c, trace, s);
    AccessKeepsLastN(trace, |c.flags|, s);
    FullLength(c.lru, |c.flags|);
    assert Sectors(rest, c.sidx) == Sectors(c.lru, c.sidx)[1..];
    SectorsFrame(rest, c.sidx, i, s);
  }

  lemma FullLength(lru: seq<nat>, n: nat)
    requires Distinct(lru) && Bounded(lru, n) && forall i: nat :: i < n ==> i in lru
    ensures |lru| == n
  {
    DistinctCount(lru);
    assert Elements(lru) == Below(n);
  }

  /** Residency over traces: a sector is buffered exactly when it was accessed and fewer distinct sectors
      than there are buffers were accessed since. */
  lemma {:induction false} BufferedIffRecent(c: Cache, trace: seq<nat>, s: nat)
    requires LruOk(c, trace) && c.flags != []
    ensures Buffered(c, s) <==> s in trace && |Elements(AfterLast(trace, s))| < |c.flags|
  {
    BufferedIffListed(c, trace, s);
    ResidentIff(trace, |c.flags|, s);
  }
}
