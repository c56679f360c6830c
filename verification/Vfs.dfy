/** Reading files through the 4 KiB blocks of kernel/vfs.c, over a FAT32 volume and its sector buffers. */
module Vfs {
  import opened Readings
  import opened Collections
  import opened CacheState
  import opened FileData
  import opened FatLayout
  import opened FatVolume

  const BLOCK: nat := 4096 // VFS_BLOCK_SIZE

  /** A file node: its first cluster and size in bytes. */
  datatype Node = Node(cidx: nat, size: nat)

  /** A bound vfs_block. */
  datatype Blk = Blk(node: nat, blkoff: nat, buf: seq<Byte>)

  // ----- what the blocks hold

  /** The bytes of the file that fall into block b are at the start of the buffer; what follows is stale. */
  ghost predicate BlockOk(b: Blk, contents: seq<seq<Byte>>) {
    && |b.buf| == BLOCK && b.node < |contents|
    && forall k: nat :: k < BLOCK && b.blkoff * BLOCK + k < |contents[b.node]| ==>
       b.buf[k] == contents[b.node][b.blkoff * BLOCK + k]
  }

  predicate Is(b: Blk, node: nat, blkoff: nat) {
    b.node == node && b.blkoff == blkoff
  }

  ghost predicate InCache(used: seq<Blk>, node: nat, blkoff: nat) {
    exists i :: 0 <= i < |used| && Is(used[i], node, blkoff)
  }

  /** Each block of a file is buffered at most once, and buffered blocks hold the file's bytes. */
  ghost predicate BlocksOk(used: seq<Blk>, contents: seq<seq<Byte>>) {
    && (forall i :: 0 <= i < |used| ==> BlockOk(used[i], contents))
    && (forall i, j :: 0 <= i < |used| && 0 <= j < |used| && Is(used[i], used[j].node, used[j].blkoff) ==> i == j)
  }

  // vbf_activate: block i goes to the end of the list
  function Activate(used: seq<Blk>, i: nat): seq<Blk>
    requires i < |used|
  {
    used[..i] + used[i + 1..] + [used[i]]
  }

  lemma ActivateKeeps(used: seq<Blk>, i: nat, contents: seq<seq<Byte>>)
    requires i < |used| && BlocksOk(used, contents)
    ensures BlocksOk(Activate(used, i), contents)
    ensures forall n: nat, b: nat :: InCache(Activate(used, i), n, b) <==> InCache(used, n, b)
  {
    hide BlockOk;
    var t := Activate(used, i);
    forall n: nat, b: nat ensures InCache(t, n, b) <==> InCache(used, n, b) {
      if InCache(used, n, b) {
        var j :| 0 <= j < |used| && Is(used[j], n, b);
        var k := if j < i then j else if j == i then |used| - 1 else j - 1;
        assert t[k] == used[j];
      }
    }
  }

  // the blocks without block i
  function Taken(used: seq<Blk>, i: nat): seq<Blk>
    requires i < |used|
  {
    used[..i] + used[i + 1..]
  }

  lemma TakenKeeps(used: seq<Blk>, i: nat, contents: seq<seq<Byte>>)
    requires i < |used| && BlocksOk(used, contents)
    ensures BlocksOk(Taken(used, i), contents) && |used[i].buf| == BLOCK
    ensures forall n: nat, b: nat :: InCache(Taken(used, i), n, b) <==> InCache(used, n, b) && !Is(used[i], n, b)
  {
    assert |used[i].buf| == BLOCK;
    hide BlockOk;
    var t := Taken(used, i);
    forall n: nat, b: nat ensures InCache(t, n, b) <==> InCache(used, n, b) && !Is(used[i], n, b) {
      if InCache(used, n, b) && !Is(used[i], n, b) {
        var j :| 0 <= j < |used| && Is(used[j], n, b);
        assert t[if j < i then j else j - 1] == used[j];
      }
    }
  }

  lemma EvictKeeps(used: seq<Blk>, contents: seq<seq<Byte>>)
    requires used != [] && BlocksOk(used, contents)
    ensures BlocksOk(used[1..], contents)
    ensures forall n: nat, b: nat :: InCache(used[1..], n, b) <==> InCache(used, n, b) && !Is(used[0], n, b)
  {
    hide BlockOk;
    forall n: nat, b: nat ensures InCache(used[1..], n, b) <==> InCache(used, n, b) && !Is(used[0], n, b) {
      if InCache(used, n, b) && !Is(used[0], n, b) {
        var j :| 0 <= j < |used| && Is(used[j], n, b);
        assert used[1..][j - 1] == used[j];
      }
      if InCache(used[1..], n, b) {
        var j :| 0 <= j < |used[1..]| && Is(used[1..][j], n, b);
        assert Is(used[j + 1], n, b);
      }
    }
  }

  lemma BindKeeps(used: seq<Blk>, b: Blk, contents: seq<seq<Byte>>)
    requires BlocksOk(used, contents) && BlockOk(b, contents) && !InCache(used, b.node, b.blkoff)
    ensures BlocksOk(used + [b], contents)
    ensures forall n: nat, o: nat :: InCache(used + [b], n, o) <==> InCache(used, n, o) || Is(b, n, o)
  {
    hide BlockOk;
    var t := used + [b];
    forall i | 0 <= i < |used| ensures !Is(used[i], b.node, b.blkoff) {}
    forall n: nat, o: nat ensures InCache(t, n, o) <==> InCache(used, n, o) || Is(b, n, o) {
      if InCache(used, n, o) {
        var j :| 0 <= j < |used| && Is(used[j], n, o);
        assert t[j] == used[j];
      }
      if Is(b, n, o) { assert Is(t[|used|], n, o); }
    }
  }

  // ----- the order of last access

  /** A block of a file. */
  datatype Key = Key(node: nat, blkoff: nat)

  function KeyOf(b: Blk): Key {
    Key(b.node, b.blkoff)
  }

  /** Where the last access of the block is in the trace; -1 when there is none. */
  function LastAt(trace: seq<Key>, k: Key): (r: int)
    ensures -1 <= r < |trace|
    decreases |trace|
  {
    if trace == [] then -1
    else if trace[|trace| - 1] == k then |trace| - 1
    else LastAt(trace[..|trace| - 1], k)
  }

  lemma {:induction false} OneAccess(trace: seq<Key>, a: Key, k: Key)
    ensures LastAt(trace + [a], k) == if k == a then |trace| else LastAt(trace, k)
  {
    assert (trace + [a])[..|trace|] == trace;
  }

  /** The blocks are in the order of their last accesses. */
  ghost predicate ByAccess(used: seq<Blk>, trace: seq<Key>) {
    && (forall i :: 0 <= i < |used| ==> LastAt(trace, KeyOf(used[i])) >= 0)
    && (forall i, j :: 0 <= i < j < |used| ==> LastAt(trace, KeyOf(used[i])) < LastAt(trace, KeyOf(used[j])))
  }

  lemma {:induction false} TakenOrder(used: seq<Blk>, i: nat, trace: seq<Key>)
    requires i < |used| && ByAccess(used, trace)
    ensures ByAccess(Taken(used, i), trace)
  {
    hide LastAt;
  }

  lemma {:induction false} OldestOrder(used: seq<Blk>, trace: seq<Key>)
    requires used != [] && ByAccess(used, trace)
    ensures ByAccess(used[1..], trace)
  {
    hide LastAt;
  }

  /** One more access: of a block that moves to the end, or of one that was not buffered. */
  lemma {:induction false} BindOrder(used: seq<Blk>, b: Blk, trace: seq<Key>)
    requires ByAccess(used, trace) && forall i :: 0 <= i < |used| ==> KeyOf(used[i]) != KeyOf(b)
    ensures ByAccess(used + [b], trace + [KeyOf(b)])
  {
    hide LastAt;
    var t := used + [b];
    forall i | 0 <= i < |t|
      ensures LastAt(trace + [KeyOf(b)], KeyOf(t[i])) == if i < |used| then LastAt(trace, KeyOf(used[i])) else |trace|
    {
      OneAccess(trace, KeyOf(b), KeyOf(t[i]));
    }
  }

  lemma {:induction false} ActivateOrder(used: seq<Blk>, i: nat, trace: seq<Key>)
    requires i < |used| && ByAccess(used, trace)
    ensures ByAccess(Activate(used, i), trace + [KeyOf(used[i])])
  {
    hide LastAt;
    TakenOrder(used, i, trace);
    var t := Taken(used, i);
    forall j | 0 <= j < |t| ensures KeyOf(t[j]) != KeyOf(used[i]) {
      assert t[j] == used[if j < i then j else j + 1];
    }
    BindOrder(t, used[i], trace);
  }

  // ----- a backend read into a buffer with stale bytes

  /** After a short read the buffer still starts with all bytes of the block that the file has. */
  lemma BoundOk(node: nat, blkoff: nat, stale: seq<Byte>, chain: seq<Byte>, size: nat, contents: seq<seq<Byte>>,
                bytes: seq<Byte>, at: nat)
    requires |stale| == BLOCK && node < |contents| && size <= |chain| && contents[node] == chain[..size]
             && at == blkoff * BLOCK
    requires bytes == if at >= size then [] else chain[at..Min(at + BLOCK, |chain|)]
    ensures BlockOk(Blk(node, blkoff, Overlay(stale, 0, bytes)), contents)
  {}

  // ----- how many blocks of a range are missing

  ghost function Missing(used: seq<Blk>, node: nat, lo: nat, hi: nat): nat
    requires lo <= hi
    decreases hi - lo
  {
    if lo == hi then 0 else Missing(used, node, lo, hi - 1) + if InCache(used, node, hi - 1) then 0 else 1
  }

  /** The buffered blocks after blocks lo to hi - 1 of the node joined them. */
  ghost predicate Joined(was: seq<Blk>, used: seq<Blk>, node: nat, lo: nat, hi: nat) {
    forall n: nat, b: nat :: InCache(used, n, b) <==> InCache(was, n, b) || (n == node && lo <= b < hi)
  }

  lemma AlignedBlock(spc: nat, bps: nat, at: nat, n: nat)
    requires spc > 0 && bps > 0 && at % BLOCK == 0 && BLOCK % bps == 0
    ensures SafeSeek(spc, bps, at, n)
  {
    MultipleOf(at / BLOCK, BLOCK / bps, bps, at);
  }

  lemma MultipleOf(q: nat, r: nat, bps: nat, at: nat)
    requires bps > 0 && at == q * BLOCK && BLOCK == r * bps
    ensures at % bps == 0
  {
    Regroup(q, r, bps);
    DivMul(q * r, bps);
  }

  lemma Regroup(q: nat, r: nat, bps: nat)
    ensures q * (r * bps) == (q * r) * bps
  {}

  /** The file of a node: its contents are the first bytes of its chain. */
  ghost predicate NodeOk(d: Disk, g: Geometry, node: Node, clusters: seq<nat>, contents: seq<Byte>)
    requires GeometryOk(g)
  {
    && IsChain(d, g, node.cidx, clusters) && node.size <= |FileBytes(Data(d, g, clusters))|
    && contents == FileBytes(Data(d, g, clusters))[..node.size]
  }

  /** Every file's chain covers its size. */
  ghost predicate FilesOk(d: Disk, g: Geometry, nodes: seq<Node>, chains: seq<seq<nat>>)
    requires GeometryOk(g)
  {
    |chains| == |nodes|
    && forall n :: 0 <= n < |nodes| ==>
         IsChain(d, g, nodes[n].cidx, chains[n]) && nodes[n].size <= |FileBytes(Data(d, g, chains[n]))|
  }

  ghost function AllContents(d: Disk, g: Geometry, nodes: seq<Node>, chains: seq<seq<nat>>): (s: seq<seq<Byte>>)
    requires GeometryOk(g) && FilesOk(d, g, nodes, chains)
    ensures |s| == |nodes| && forall n :: 0 <= n < |nodes| ==> NodeOk(d, g, nodes[n], chains[n], s[n])
  {
    seq(|nodes|, n requires 0 <= n < |nodes| => FileBytes(Data(d, g, chains[n]))[..nodes[n].size])
  }

  class FileCache {
    const v: Volume
    const reading: Reading // of lines 52 and 62, which take the list head itself for a block
    const max: nat // bbf_total_max
    const nodes: seq<Node>
    ghost const d: Disk
    ghost const chains: seq<seq<nat>>
    ghost const contents: seq<seq<Byte>>
    var used: seq<Blk> // bbf_used, least recently accessed first
    var free: seq<seq<Byte>> // bbf_free: the buffers of unbound blocks
    ghost var trace: seq<Key> // every block accessed so far

    ghost predicate Valid()
      reads this`used, this`free, this`trace, v.cache, v.cache.flags, v.cache.sidx, v.cache.data
      reads v.cache.links.prev, v.cache.links.next
    {
      && v.Valid() && v.Plain() == d && GeometryOk(v.g) && BLOCK % v.g.bps == 0 && max > 0
      && |chains| == |contents| == |nodes|
      && (forall n :: 0 <= n < |nodes| ==> NodeOk(d, v.g, nodes[n], chains[n], contents[n]))
      && BlocksOk(used, contents) && (forall i :: 0 <= i < |free| ==> |free[i]| == BLOCK)
      && |used| + |free| <= max && ByAccess(used, trace)
    }

    // vfs_init, with the file nodes that vfs_span_search made
    constructor (volume: Volume, r: Reading, bufferMax: nat, files: seq<Node>, ghost disk: Disk,
                 ghost clusters: seq<seq<nat>>)
      requires volume.Valid() && volume.Plain() == disk && BLOCK % volume.g.bps == 0 && bufferMax > 0
      requires FilesOk(disk, volume.g, files, clusters)
      ensures Valid() && v == volume && reading == r && max == bufferMax && nodes == files && used == [] && free == []
      ensures d == disk && chains == clusters && trace == []
    {
      v, reading, max, nodes := volume, r, bufferMax, files;
      d, chains, used, free, trace := disk, clusters, [], [], [];
      contents := AllContents(disk, volume.g, files, clusters);
    }

    // vbf_chkbufed
    method Check(node: nat, blkoff: nat) returns (found: Option<nat>)
      ensures if found.Some? then found.value < |used| && Is(used[found.value], node, blkoff)
              else !InCache(used, node, blkoff)
    {
      var i := 0;
      while i < |used|
        invariant 0 <= i <= |used| && forall j :: 0 <= j < i ==> !Is(used[j], node, blkoff)
      {
        if Is(used[i], node, blkoff) {
          return Some(i);
        }
        i := i + 1;
      }
      return None;
    }

    /** As written, taking a block from a list goes wrong; a new block is made only when no block is free and
        fewer than max are in use. */
    predicate Faults()
      reads this`used, this`free
    {
      reading.AsWritten? && (free != [] || |used| == max)
    }

    /** vbf_borrow: the stale buffer of a block that is bound to nothing, a free one, a new one, or the one whose
        last access is the longest ago. */
    method Borrow() returns (stale: seq<Byte>)
      requires Valid() && !Faults()
      modifies this`used, this`free
      ensures Valid() && |stale| == BLOCK && |used| + |free| < max
      ensures used == (if old(free) == [] && |old(used)| == max then old(used)[1..] else old(used))
      ensures free == if old(free) == [] then [] else old(free)[1..]
      ensures old(free) == [] && |old(used)| == max ==>
                forall i :: 0 < i < max ==> LastAt(trace, KeyOf(old(used)[0])) < LastAt(trace, KeyOf(old(used)[i]))
    {
      if |free| > 0 {
        stale := free[0];
        free := free[1..];
      } else if |used| < max {
        stale := seq(BLOCK, _ => 0);
      } else {
        EvictKeeps(used, contents);
        OldestOrder(used, trace);
        BlockSized(used[0], contents);
        stale := used[0].buf;
        used := used[1..];
      }
    }

    // vbf_bind
    method Bind(node: nat, blkoff: nat, stale: seq<Byte>) returns (b: Blk)
      requires Valid() && node < |nodes| && |stale| == BLOCK
      modifies v.cache`disk, v.cache`lru, v.cache`trace, v.cache.flags, v.cache.sidx, v.cache.data
      modifies v.cache.links.prev, v.cache.links.next
      ensures Valid() && Is(b, node, blkoff) && BlockOk(b, contents)
    {
      hide Volume.Valid, Volume.Plain, BlockOk, BlocksOk, FileBytes, SafeSeek, IsChain;
      assert NodeOk(d, v.g, nodes[node], chains[node], contents[node]);
      AlignedBlock(v.g.spc, v.g.bps, blkoff * BLOCK, BLOCK);
      var bytes := v.Read(nodes[node].cidx, nodes[node].size, BLOCK, blkoff * BLOCK, d, chains[node]);
      BoundOk(node, blkoff, stale, FileBytes(Data(d, v.g, chains[node])), nodes[node].size, contents, bytes,
              blkoff * BLOCK);
      b := Blk(node, blkoff, Overlay(stale, 0, bytes));
    }

    // vfs_unbuffer: the block is unbound, and its buffer is the first free one
    method Unbuffer(i: nat)
      requires Valid() && i < |used|
      modifies this`used, this`free
      ensures Valid() && used == Taken(old(used), i) && free == [old(used[i].buf)] + old(free)
      ensures forall n: nat, b: nat :: InCache(used, n, b) <==> InCache(old(used), n, b) && !Is(old(used[i]), n, b)
    {
      hide Volume.Valid, Volume.Plain, NodeOk, BlockOk, BlocksOk;
      TakenKeeps(used, i, contents);
      TakenOrder(used, i, trace);
      free := [used[i].buf] + free;
      used := Taken(used, i);
    }

    /** vfs_unbuffer_all: no block of the node is buffered any more, every other one still is, and the buffers
        taken from it are free. */
    method UnbufferAll(node: nat)
      requires Valid()
      modifies this`used, this`free
      ensures Valid() && |used| + |free| == old(|used| + |free|)
      ensures forall n: nat, b: nat :: InCache(used, n, b) <==> InCache(old(used), n, b) && n != node
    {
      hide Volume.Valid, Volume.Plain, NodeOk, BlockOk, BlocksOk;
      var i := 0;
      while i < |used|
        invariant 0 <= i <= |used| && Valid() && |used| + |free| == old(|used| + |free|)
        invariant forall j :: 0 <= j < i ==> used[j].node != node
        invariant forall n: nat, b: nat :: InCache(old(used), n, b) && n != node ==> InCache(used, n, b)
        invariant forall n: nat, b: nat :: InCache(used, n, b) ==> InCache(old(used), n, b)
        decreases |used| - i
      {
        if used[i].node == node {
          Unbuffer(i);
        } else {
          i := i + 1;
        }
      }
    }

    /** vfs_access: the buffer of the block, which holds the file's bytes; None is the fault as written. */
    method Access(node: nat, blkoff: nat) returns (r: Option<seq<Byte>>)
      requires Valid() && node < |nodes|
      modifies this`used, this`free, this`trace
      modifies v.cache`disk, v.cache`lru, v.cache`trace, v.cache.flags, v.cache.sidx, v.cache.data
      modifies v.cache.links.prev, v.cache.links.next
      ensures Valid()
      ensures r.None? <==> old(Faults()) && !InCache(old(used), node, blkoff)
      ensures r.None? ==> used == old(used) && free == old(free)
      ensures trace == if r.None? then old(trace) else old(trace) + [Key(node, blkoff)]
      ensures r.Some? ==> BlockOk(Blk(node, blkoff, r.value), contents) && InCache(used, node, blkoff)
      ensures reading.AsWritten? && r.Some? ==>
                && free == old(free) && Joined(old(used), used, node, blkoff, blkoff + 1)
                && |used| == |old(used)| + if InCache(old(used), node, blkoff) then 0 else 1
    {
      hide Volume.Valid, Volume.Plain, NodeOk, BlocksOk, BlockOk;
      var found := Check(node, blkoff);
      if found.Some? {
        r := Hit(found.value);
      } else if Faults() {
        r := None;
      } else {
        r := Miss(node, blkoff);
      }
    }

    // lines 361-362
    method Hit(i: nat) returns (r: Option<seq<Byte>>)
      requires Valid() && i < |used|
      modifies this`used, this`trace
      ensures trace == old(trace) + [KeyOf(old(used[i]))]
      ensures Valid() && r == Some(old(used[i].buf)) && BlockOk(old(used[i]), contents) && |used| == |old(used)|
      ensures forall n: nat, b: nat :: InCache(used, n, b) <==> InCache(old(used), n, b)
    {
      hide Volume.Valid, Volume.Plain, NodeOk, BlockOk;
      ActivateKeeps(used, i, contents);
      ActivateOrder(used, i, trace);
      trace := trace + [KeyOf(used[i])];
      r := Some(used[i].buf);
      used := Activate(used, i);
    }

    // lines 364-365
    method Miss(node: nat, blkoff: nat) returns (r: Option<seq<Byte>>)
      requires Valid() && node < |nodes| && !Faults() && !InCache(used, node, blkoff)
      modifies this`used, this`free, this`trace
      modifies v.cache`disk, v.cache`lru, v.cache`trace, v.cache.flags, v.cache.sidx, v.cache.data
      modifies v.cache.links.prev, v.cache.links.next
      ensures Valid() && r.Some? && BlockOk(Blk(node, blkoff, r.value), contents) && InCache(used, node, blkoff)
      ensures trace == old(trace) + [Key(node, blkoff)]
      ensures reading.AsWritten? ==>
                && free == old(free) && |used| == |old(used)| + 1
                && forall n: nat, b: nat ::
                     InCache(used, n, b) <==> InCache(old(used), n, b) || (n == node && b == blkoff)
    {
      hide Volume.Valid, Volume.Plain, NodeOk, BlocksOk, BlockOk, ByAccess, InCache, LastAt;
      StillMissing(used, node, blkoff);
      var stale := Borrow();
      var b := Bind(node, blkoff, stale);
      BindKeeps(used, b, contents);
      BindOrder(used, b, trace);
      trace := trace + [Key(node, blkoff)];
      used := used + [b];
      r := Some(b.buf);
    }

    /** vfs_read of a file: the bytes from offset on, at most bufLen of them and none past the size, whatever
        is or was buffered. As written it fails exactly when a block is missing and a list would have to be
        popped: some block is free, or there is no room for all missing blocks. */
    method Read(node: nat, offset: nat, bufLen: nat) returns (r: Option<seq<Byte>>)
      requires Valid() && node < |nodes|
      modifies this`used, this`free, this`trace
      modifies v.cache`disk, v.cache`lru, v.cache`trace, v.cache.flags, v.cache.sidx, v.cache.data
      modifies v.cache.links.prev, v.cache.links.next
      ensures Valid()
      ensures r.Some? ==> r.value == Wanted(contents[node], offset, bufLen)
      ensures r.None? <==> reading.AsWritten? && Blocked(old(used), old(free), max, node, offset,
                                                         |Wanted(contents[node], offset, bufLen)|)
      ensures reading.AsWritten? && r.Some? ==>
                Joined(old(used), used, node, offset / BLOCK, EndBlock(offset, |r.value|))
    {
      hide Volume.Valid, Volume.Plain, NodeOk, BlocksOk, BlockOk, Missing, Joined, FileBytes, Data, IsChain;
      SizeOf(d, v.g, nodes[node], chains[node], contents[node]);
      NoneMissing(used, node, offset / BLOCK);
      JoinedNone(used, node, offset / BLOCK);
      r := Some([]);
      if offset < nodes[node].size {
        var len := Min(bufLen, nodes[node].size - offset);
        r := ReadBlocks(node, offset, len);
      }
    }

    // lines 387-402
    method ReadBlocks(node: nat, offset: nat, bufLen: nat) returns (r: Option<seq<Byte>>)
      requires Valid() && node < |nodes| && offset + bufLen <= |contents[node]|
      modifies this`used, this`free, this`trace
      modifies v.cache`disk, v.cache`lru, v.cache`trace, v.cache.flags, v.cache.sidx, v.cache.data
      modifies v.cache.links.prev, v.cache.links.next
      ensures Valid()
      ensures r.Some? ==> r.value == contents[node][offset..offset + bufLen]
      ensures r.None? <==> reading.AsWritten? && Blocked(old(used), old(free), max, node, offset, bufLen)
      ensures reading.AsWritten? && r.Some? ==>
                Joined(old(used), used, node, offset / BLOCK, EndBlock(offset, bufLen))
    {
      hide Volume.Valid, Volume.Plain, NodeOk, BlocksOk, BlockOk, Missing, Joined, Blocked;
      var blkoff: nat, byteoff: nat, buf := offset / BLOCK, offset % BLOCK, [];
      ghost var first, end := blkoff, EndBlock(offset, bufLen);
      JoinedNone(used, node, first);
      while |buf| != bufLen
        invariant Valid() && |buf| <= bufLen && byteoff < BLOCK && first <= blkoff <= end
        invariant buf == contents[node][offset..offset + |buf|]
        invariant |buf| < bufLen ==> offset + |buf| == blkoff * BLOCK + byteoff && blkoff < end
        invariant |buf| == bufLen ==> blkoff == end
        invariant reading.AsWritten? ==> Counted(old(used), used, old(free), free, node, first, blkoff)
        decreases bufLen - |buf|
      {
        ghost var was := used;
        var dat := Access(node, blkoff);
        if dat.None? {
          CountFault(old(used), used, old(free), free, max, node, offset, bufLen, first, blkoff, end);
          return None;
        }
        if reading.AsWritten? { CountStep(old(used), was, used, old(free), free, node, first, blkoff); }
        var len := Min(BLOCK - byteoff, bufLen - |buf|);
        CopyPart(contents[node], dat.value, node, blkoff, byteoff, offset, buf, len, contents);
        buf := buf + dat.value[byteoff..byteoff + len];
        byteoff := 0;
        blkoff := blkoff + 1;
      }
      if reading.AsWritten? { CountDone(old(used), used, old(free), free, max, node, offset, bufLen, first, end); }
      r := Some(buf);
    }
  }

  lemma BlockSized(b: Blk, contents: seq<seq<Byte>>)
    requires BlockOk(b, contents)
    ensures |b.buf| == BLOCK
  {}

  lemma StillMissing(used: seq<Blk>, node: nat, blkoff: nat)
    requires !InCache(used, node, blkoff)
    ensures used != [] ==> !InCache(used[1..], node, blkoff)
    ensures forall i :: 0 <= i < |used| ==> KeyOf(used[i]) != Key(node, blkoff)
  {
    forall i | 0 <= i < |used| ensures !Is(used[i], node, blkoff) {}
  }

  // ----- a whole read

  /** The bytes a reader expects. */
  function Wanted(file: seq<Byte>, offset: nat, bufLen: nat): seq<Byte> {
    if offset >= |file| then [] else file[offset..offset + Min(bufLen, |file| - offset)]
  }

  /** They are as many as fit the buffer and the file has, and byte i of them is byte offset + i of the file. */
  lemma WantedAt(file: seq<Byte>, offset: nat, bufLen: nat)
    ensures var w := Wanted(file, offset, bufLen);
            && |w| <= bufLen && (w == [] || offset + |w| <= |file|)
            && (|w| < bufLen ==> offset + |w| >= |file|)
            && forall i :: 0 <= i < |w| ==> w[i] == file[offset + i]
  {}

  /** The block after the last one a read of n bytes touches. */
  function EndBlock(offset: nat, n: nat): nat {
    if n == 0 then offset / BLOCK else (offset + n - 1) / BLOCK + 1
  }

  ghost predicate Blocked(used: seq<Blk>, free: seq<seq<Byte>>, max: nat, node: nat, offset: nat, n: nat) {
    var missing := Missing(used, node, offset / BLOCK, EndBlock(offset, n));
    missing > 0 && (free != [] || |used| + missing > max)
  }

  lemma SizeOf(d: Disk, g: Geometry, node: Node, clusters: seq<nat>, contents: seq<Byte>)
    requires GeometryOk(g) && NodeOk(d, g, node, clusters, contents)
    ensures |contents| == node.size
  {}

  lemma {:induction false} NoneMissing(used: seq<Blk>, node: nat, b: nat)
    ensures Missing(used, node, b, b) == 0
  {}

  lemma {:induction false} JoinedNone(used: seq<Blk>, node: nat, b: nat)
    ensures Joined(used, used, node, b, b) && Missing(used, node, b, b) == 0
  {}

  /** As written, the blocks accessed so far are those that were missing, and no list was popped. */
  ghost predicate Counted(was: seq<Blk>, used: seq<Blk>, wasFree: seq<seq<Byte>>, free: seq<seq<Byte>>, node: nat,
                          lo: nat, hi: nat) {
    && lo <= hi && free == wasFree && Joined(was, used, node, lo, hi)
    && |used| == |was| + Missing(was, node, lo, hi) && (free != [] ==> Missing(was, node, lo, hi) == 0)
  }

  lemma CountStep(was: seq<Blk>, mid: seq<Blk>, used: seq<Blk>, wasFree: seq<seq<Byte>>, free: seq<seq<Byte>>,
                  node: nat, lo: nat, b: nat)
    requires Counted(was, mid, wasFree, free, node, lo, b)
    requires Joined(mid, used, node, b, b + 1) && |used| == |mid| + if InCache(mid, node, b) then 0 else 1
    requires free != [] ==> InCache(mid, node, b)
    ensures Counted(was, used, wasFree, free, node, lo, b + 1)
  {
    assert InCache(mid, node, b) <==> InCache(was, node, b);
  }

  lemma {:induction false} MissingMono(used: seq<Blk>, node: nat, lo: nat, mid: nat, hi: nat)
    requires lo <= mid <= hi
    ensures Missing(used, node, lo, mid) <= Missing(used, node, lo, hi)
    decreases hi - mid
  {
    if mid < hi { MissingMono(used, node, lo, mid, hi - 1); }
  }

  lemma CountFault(was: seq<Blk>, used: seq<Blk>, wasFree: seq<seq<Byte>>, free: seq<seq<Byte>>, max: nat, node: nat,
                   offset: nat, n: nat,
                   lo: nat, b: nat, hi: nat)
    requires Counted(was, used, wasFree, free, node, lo, b) && !InCache(used, node, b) && (free != [] || |used| == max)
    requires lo == offset / BLOCK && hi == EndBlock(offset, n) && b < hi
    ensures Blocked(was, wasFree, max, node, offset, n)
  {
    assert !InCache(was, node, b);
    MissingMono(was, node, lo, b + 1, hi);
  }

  lemma CountDone(was: seq<Blk>, used: seq<Blk>, wasFree: seq<seq<Byte>>, free: seq<seq<Byte>>, max: nat, node: nat,
                  offset: nat, n: nat,
                  lo: nat, hi: nat)
    requires Counted(was, used, wasFree, free, node, lo, hi) && lo == offset / BLOCK && hi == EndBlock(offset, n)
             && |used| <= max
    ensures !Blocked(was, wasFree, max, node, offset, n)
  {}

  /** Copying out of a block copies bytes of the file. */
  lemma CopyPart(file: seq<Byte>, dat: seq<Byte>, node: nat, blkoff: nat, byteoff: nat, offset: nat, buf: seq<Byte>,
                 len: nat,
                 contents: seq<seq<Byte>>)
    requires BlockOk(Blk(node, blkoff, dat), contents) && node < |contents| && file == contents[node]
    requires offset + |buf| == blkoff * BLOCK + byteoff && byteoff + len <= BLOCK && offset + |buf| + len <= |file|
    requires buf == file[offset..offset + |buf|]
    ensures byteoff + len <= |dat| && buf + dat[byteoff..byteoff + len] == file[offset..offset + |buf| + len]
  {
    var part := dat[byteoff..byteoff + len];
    forall k | 0 <= k < |part| ensures part[k] == file[offset + |buf| + k] {
      assert dat[byteoff + k] == file[blkoff * BLOCK + (byteoff + k)];
    }
  }
}
