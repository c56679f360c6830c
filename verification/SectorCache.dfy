/** The fat32_bio_ functions of kernel/fat32.c over their arrays of buffers. */
module SectorCache {
  import opened Collections
  import opened Recency
  import opened CacheState
  import opened ListHead

  lemma SameTrans(c: Cache, d: Cache, e: Cache)
    requires SameContents(c, d) && SameContents(d, e)
    ensures SameContents(c, e)
  {}

  function PositionOf(xs: seq<nat>, x: nat): (k: nat)
    requires x in xs
    ensures k < |xs| && xs[k] == x
  {
    if xs[0] == x then 0 else 1 + PositionOf(xs[1..], x)
  }

  lemma {:induction false} WithoutAt(xs: seq<nat>, k: nat)
    requires Distinct(xs) && k < |xs|
    ensures Without(xs, xs[k]) == RemoveAt(xs, k) && xs[k] !in RemoveAt(xs, k)
    decreases |xs|
  {
    if k > 0 {
      WithoutAt(xs[1..], k - 1);
      assert xs[1..][k - 1] == xs[k];
      assert RemoveAt(xs, k) == [xs[0]] + RemoveAt(xs[1..], k - 1);
    }
  }

  lemma RingDistinct(prev: seq<nat>, next: seq<nat>, head: nat, list: seq<nat>)
    requires Linked(prev, next, [head] + list)
    ensures Distinct(list)
  {
    var ring := [head] + list;
    assert forall i :: 0 <= i < |list| ==> list[i] == ring[i + 1];
  }

  lemma RingFirst(prev: seq<nat>, next: seq<nat>, head: nat, list: seq<nat>)
    requires Linked(prev, next, [head] + list) && list != []
    ensures head < |next| && next[head] == list[0]
  {
    assert NodeOk(prev, next, [head] + list, 0);
  }

  class SectorBuffers {
    const bps: nat // byte_per_sector
    const dsidx: nat
    const flags: array<Flag>
    const sidx: array<nat>
    const data: array<Sector>
    const links: Links // buf_lists, and buf_seq as the node after them
    ghost var lru: seq<nat> // the buffers in buf_seq, from its first entry on
    var disk: seq<Sector>
    ghost var trace: seq<nat> // every sector accessed so far

    ghost function View(): Cache
      reads this, flags, sidx, data
    {
      Cache(flags[..], sidx[..], data[..], lru, disk, dsidx)
    }

    ghost predicate Ready()
      reads this, flags, sidx, data, links.prev, links.next
    {
      Sized(View(), bps) && Coherent(View()) && flags.Length > 0 && Listing()
    }

    /** buf_seq links exactly the buffers of the list, in order. */
    ghost predicate Listing()
      reads this`lru, links.prev, links.next
    {
      && links.prev != links.next && links.prev != sidx && links.next != sidx
      && links.prev.Length == flags.Length + 1 && links.Ring([flags.Length] + lru)
    }

    // list_del of buffer b
    method ListDel(b: nat)
      requires Listing() && b in lru
      modifies this`lru, links.prev, links.next
      ensures Listing() && lru == Without(old(lru), b) && b !in lru
    {
      ghost var ring, k := [flags.Length] + lru, PositionOf(lru, b);
      RingDistinct(links.prev[..], links.next[..], flags.Length, lru);
      WithoutAt(lru, k);
      links.Del(b, ring, k + 1);
      assert RemoveAt(ring, k + 1) == [flags.Length] + RemoveAt(lru, k);
      lru := Without(lru, b);
    }

    // list_add_tail of buffer b to buf_seq
    method ListAddTail(b: nat)
      requires Listing() && b !in lru && b < flags.Length
      modifies this`lru, links.prev, links.next
      ensures Listing() && lru == old(lru) + [b]
    {
      ghost var ring := [flags.Length] + lru;
      links.AddTail(b, flags.Length, ring);
      lru := lru + [b];
      assert ring + [b] == [flags.Length] + lru;
    }

    // fat32_bio_get_low_activity
    method LowActivity() returns (b: nat)
      requires Listing() && lru != []
      ensures b == lru[0]
    {
      RingFirst(links.prev[..], links.next[..], flags.Length, lru);
      b := links.next[flags.Length];
    }

    ghost predicate Valid()
      reads this, flags, sidx, data, links.prev, links.next
    {
      Ready() && LruOk(View(), trace)
    }

    // the buffer part of fat32_init
    constructor (bytePerSector: nat, bufNum: nat, start: nat, sectors: seq<Sector>)
      requires bufNum > 0 && forall i :: 0 <= i < |sectors| ==> |sectors[i]| == bytePerSector
      ensures Valid() && fresh(flags) && fresh(sidx) && fresh(data) && fresh(links.prev) && fresh(links.next)
      ensures bps == bytePerSector && dsidx == start && disk == sectors && trace == [] && flags.Length == bufNum
      ensures forall s: nat :: OnDisk(View(), s) ==> Logical(View(), s) == sectors[s + start]
    {
      bps, dsidx, disk := bytePerSector, start, sectors;
      flags := new Flag[bufNum](_ => Invalid);
      sidx := new nat[bufNum](_ => 0);
      data := new Sector[bufNum](_ => seq(bytePerSector, _ => 0));
      links := new Links(bufNum + 1);
      lru := [];
      trace := [];
      new;
      hide Sized, Coherent, LruOk, Logical;
      links.Init(bufNum);
      assert [bufNum] + lru == [bufNum];
      AllInvalid(View(), bps);
    }

    // fat32_bio_match_buffered
    method MatchBuffered(s: nat) returns (b: Option<nat>)
      requires Ready()
      ensures if b.Some? then Holds(View(), b.value, s) else !Buffered(View(), s)
    {
      var i := 0;
      while i < flags.Length
        invariant 0 <= i <= flags.Length
        invariant forall j: nat :: j < i ==> !Holds(View(), j, s)
      {
        if s == sidx[i] && flags[i] != Invalid {
          return Some(i);
        }
        i := i + 1;
      }
      return None;
    }

    // fat32_bio_match_unbuffered
    method MatchUnbuffered() returns (b: Option<nat>)
      requires Ready()
      ensures if b.Some? then b.value < flags.Length && flags[b.value] == Invalid
              else forall i :: 0 <= i < flags.Length ==> flags[i] != Invalid
    {
      var i := 0;
      while i < flags.Length
        invariant 0 <= i <= flags.Length
        invariant forall j :: 0 <= j < i ==> flags[j] != Invalid
      {
        if flags[i] == Invalid {
          return Some(i);
        }
        i := i + 1;
      }
      return None;
    }

    // fat32_bio_writeback_no_check
    method WritebackNoCheck(i: nat)
      requires Ready() && i < flags.Length && flags[i] != Invalid
      modifies this`disk, flags
      ensures OnDisk(old(View()), old(sidx[i])) && View() == WriteBack(old(View()), i)
      ensures Ready() && SameContents(old(View()), View())
    {
      WriteBackKeeps(View(), i, bps);
      disk := disk[sidx[i] + dsidx := data[i]];
      flags[i] := Clean;
      assert flags[..] == old(flags[..])[i := Clean];
    }

    // fat32_bio_remove
    method RemoveBuffer(i: nat)
      requires Ready() && i < flags.Length && flags[i] != Invalid && i in lru
      modifies this`disk, this`lru, flags, links.prev, links.next
      ensures Ready() && SameContents(old(View()), View())
      ensures View().(disk := old(disk)) == Drop(old(View()), i)
      ensures forall s: nat :: Buffered(View(), s) ==> Buffered(old(View()), s)
    {
      if flags[i] == Dirty {
        WritebackNoCheck(i);
      }
      ghost var c := View();
      DropKeeps(c, i, bps);
      flags[i] := Invalid;
      ListDel(i);
      assert View() == Drop(c, i);
      assert forall j: nat, s: nat :: Holds(View(), j, s) ==> Holds(old(View()), j, s);
      SameTrans(old(View()), c, View());
    }

    // fat32_bio_fetch
    method Fetch(s: nat) returns (b: nat)
      requires Valid() && OnDisk(View(), s) && !Buffered(View(), s)
      modifies this`disk, this`lru, flags, sidx, data, links.prev, links.next
      ensures Ready() && SameContents(old(View()), View()) && Holds(View(), b, s) && b in lru
      ensures LruOk(Touch(View(), b), trace + [s])
    {
      var free := MatchUnbuffered();
      if free.None? {
        TouchEvict(View(), trace, s);
        b := LowActivity();
        RemoveBuffer(b);
      } else {
        b := free.value;
        TouchMiss(View(), trace, b, s);
      }
      ghost var c := View();
      FillKeeps(c, b, s, bps);
      hide SameContents, LruOk;
      FillBuffer(b, s);
      SameTrans(old(View()), c, View());
    }

    // lines 73-76: the sector into buffer b, which becomes the last of the list
    method FillBuffer(b: nat, s: nat)
      requires Ready() && b < flags.Length && OnDisk(View(), s) && b !in lru
      modifies this`lru, flags, sidx, data, links.prev, links.next
      ensures View() == Fill(old(View()), b, s) && Listing()
    {
      data[b] := disk[s + dsidx];
      flags[b] := Clean;
      sidx[b] := s;
      ListAddTail(b);
    }

    // fat32_bio_set_activity
    method SetActivity(b: nat)
      requires Listing() && b in lru && b < flags.Length
      modifies this`lru, links.prev, links.next
      ensures Listing() && View() == Touch(old(View()), b)
    {
      ListDel(b);
      ListAddTail(b);
    }

    /** fat32_bio_access: sector s is in buffer b; nothing else can be observed. */
    method Access(s: nat) returns (b: nat)
      requires Valid() && OnDisk(View(), s)
      modifies this`disk, this`lru, this`trace, flags, sidx, data, links.prev, links.next
      ensures Valid() && SameContents(old(View()), View()) && Holds(View(), b, s) && trace == old(trace) + [s]
    {
      var hit := MatchBuffered(s);
      if hit.None? {
        b := Fetch(s);
      } else {
        b := hit.value;
        TouchHit(View(), trace, b, s);
      }
      ghost var c := View();
      TouchKeeps(c, b, bps);
      SetActivity(b);
      trace := trace + [s];
      SameTrans(old(View()), c, View());
    }

    /** fat32_bio_read, with the pointer it returns read out: what a plain array of sectors holds. */
    method Read(s: nat) returns (dat: Sector)
      requires Valid() && OnDisk(View(), s)
      modifies this`disk, this`lru, this`trace, flags, sidx, data, links.prev, links.next
      ensures Valid() && SameContents(old(View()), View()) && trace == old(trace) + [s]
      ensures dat == Logical(old(View()), s) && |dat| == bps
    {
      var b := Access(s);
      LogicalIs(View(), b, s);
      dat := data[b];
    }

    /** fat32_bio_read_copy: the bytes from offset to the end of the sector, at most bufLen of them. */
    method ReadCopy(s: nat, offset: nat, bufLen: nat) returns (buf: seq<Byte>)
      requires Valid() && OnDisk(View(), s) && offset <= bps
      modifies this`disk, this`lru, this`trace, flags, sidx, data, links.prev, links.next
      ensures Valid() && SameContents(old(View()), View()) && trace == old(trace) + [s]
      ensures |Logical(old(View()), s)| == bps
      ensures buf == Logical(old(View()), s)[offset..offset + Min(bps - offset, bufLen)]
    {
      var dat := Read(s);
      buf := dat[offset..offset + Min(bps - offset, bufLen)];
    }

    /** fat32_bio_write: as Access, and the buffer is dirty, for the caller to store into. */
    method Write(s: nat) returns (b: nat)
      requires Valid() && OnDisk(View(), s)
      modifies this`disk, this`lru, this`trace, flags, sidx, data, links.prev, links.next
      ensures Valid() && SameContents(old(View()), View()) && trace == old(trace) + [s]
      ensures Holds(View(), b, s) && flags[b] == Dirty
    {
      b := Access(s);
      ghost var c := View();
      Redirty(c, b, bps);
      flags[b] := Dirty;
      assert View() == Modify(c, b, c.data[b]);
      RedirtyLru(c, b, trace);
      SameTrans(old(View()), c, View());
    }

    /** A store through the pointer fat32_bio_write returned. */
    method Poke(b: nat, offset: nat, buf: seq<Byte>)
      requires Valid() && b < flags.Length && flags[b] == Dirty && offset + |buf| <= bps
      modifies data
      ensures Valid() && |old(View()).disk| == |View().disk|
      ensures OnDisk(old(View()), sidx[b])
      ensures forall s: nat :: OnDisk(View(), s) ==>
                Logical(View(), s)
                == if s == sidx[b] then Overlay(Logical(old(View()), s), offset, buf) else Logical(old(View()), s)
    {
      ghost var c := View();
      assert Holds(c, b, sidx[b]);
      LogicalIs(c, b, sidx[b]);
      ghost var bytes := Overlay(data[b], offset, buf);
      ModifyWrites(c, b, bytes, bps);
      data[b] := data[b][..offset] + buf + data[b][offset + |buf|..];
      assert View() == Modify(c, b, bytes);
      RedirtyLru(c, b, trace);
    }

    /** fat32_bio_write_copy: writes min(bytes left in the sector, bufLen) bytes of buf at offset. */
    method WriteCopy(s: nat, offset: nat, buf: seq<Byte>) returns (len: nat)
      requires Valid() && OnDisk(View(), s) && offset <= bps
      modifies this`disk, this`lru, this`trace, flags, sidx, data, links.prev, links.next
      ensures Valid() && |disk| == |old(disk)| && trace == old(trace) + [s]
      ensures len == Min(bps - offset, |buf|)
      ensures forall t: nat :: OnDisk(View(), t) ==>
                && |Logical(old(View()), t)| == bps
                && Logical(View(), t)
                   == if t == s then Overlay(Logical(old(View()), t), offset, buf[..len]) else Logical(old(View()), t)
    {
      len := Min(bps - offset, |buf|);
      var b := Write(s);
      ghost var c := View();
      Poke(b, offset, buf[..len]);
      forall t: nat | OnDisk(View(), t) ensures |Logical(old(View()), t)| == bps { LogicalSize(old(View()), bps, t); }
    }

    /** fat32_bio_flush: afterwards the disk holds the logical contents, which do not change. */
    method Flush()
      requires Valid()
      modifies this`disk, flags
      ensures Valid() && SameContents(old(View()), View()) && trace == old(trace) && lru == old(lru)
      ensures forall s: nat :: OnDisk(View(), s) ==> View().disk[s + dsidx] == Logical(old(View()), s)
    {
      ghost var c := View();
      var i := 0;
      while i < flags.Length
        invariant 0 <= i <= flags.Length
        invariant Valid() && SameContents(c, View())
        invariant forall j :: 0 <= j < i ==> flags[j] != Dirty
      {
        if flags[i] == Dirty {
          ghost var d := View();
          WritebackNoCheck(i);
          SameTrans(c, d, View());
          CleanedLru(d, i, trace);
        }
        i := i + 1;
      }
      forall s: nat | OnDisk(View(), s) ensures View().disk[s + dsidx] == Logical(c, s) {
        CleanMeansOnDisk(View(), s);
      }
    }

    /** Transparency over any run: reads, writes and flushes in any order, with whatever evictions they
        cause, return what the same run on a plain array of sectors returns, and leave what it leaves. */
    method Replay(run: seq<Request>) returns (out: seq<seq<Byte>>)
      requires Valid() && forall i :: 0 <= i < |run| ==> RequestOk(run[i], Volume(View()), bps)
      modifies this`disk, this`lru, this`trace, flags, sidx, data, links.prev, links.next
      ensures Valid() && Volume(View()) == Volume(old(View()))
      ensures (Contents(View()), out) == Plain(Contents(old(View())), run, bps)
    {
      out := [];
      var i := 0;
      assert run[..0] == [];
      while i < |run|
        invariant 0 <= i <= |run| && Valid() && Volume(View()) == Volume(old(View()))
        invariant (Contents(View()), out) == Plain(Contents(old(View())), run[..i], bps)
      {
        var bytes := Serve(run[i]);
        assert run[..i + 1][..i] == run[..i];
        out := out + [bytes];
        i := i + 1;
      }
      assert run[..|run|] == run;
    }

    method Serve(q: Request) returns (bytes: seq<Byte>)
      requires Valid() && RequestOk(q, Volume(View()), bps)
      modifies this`disk, this`lru, this`trace, flags, sidx, data, links.prev, links.next
      ensures Valid() && Volume(View()) == Volume(old(View()))
      ensures (Contents(View()), bytes) == PlainOne(Contents(old(View())), q, bps)
    {
      match q
      case ReadAt(s, offset, len) =>
        bytes := ServeRead(s, offset, len);
      case WriteAt(s, offset, buf) =>
        bytes := ServeWrite(s, offset, buf);
      case FlushAll =>
        ghost var c := View();
        Flush();
        SameContentsEqual(c, View());
        bytes := [];
    }

    method ServeRead(s: nat, offset: nat, len: nat) returns (bytes: seq<Byte>)
      requires Valid() && RequestOk(ReadAt(s, offset, len), Volume(View()), bps)
      modifies this`disk, this`lru, this`trace, flags, sidx, data, links.prev, links.next
      ensures Valid() && Volume(View()) == Volume(old(View()))
      ensures (Contents(View()), bytes) == PlainOne(Contents(old(View())), ReadAt(s, offset, len), bps)
    {
      ghost var c := View();
      bytes := ReadCopy(s, offset, len);
      SameContentsEqual(c, View());
    }

    method ServeWrite(s: nat, offset: nat, buf: seq<Byte>) returns (bytes: seq<Byte>)
      requires Valid() && RequestOk(WriteAt(s, offset, buf), Volume(View()), bps)
      modifies this`disk, this`lru, this`trace, flags, sidx, data, links.prev, links.next
      ensures Valid() && Volume(View()) == Volume(old(View()))
      ensures (Contents(View()), bytes) == PlainOne(Contents(old(View())), WriteAt(s, offset, buf), bps)
    {
      ghost var c := View();
      LogicalSize(c, bps, s);
      var len := WriteCopy(s, offset, buf);
      assert Contents(View()) == Contents(c)[s := Overlay(Contents(c)[s], offset, buf[..len])];
      bytes := [];
    }
  }

  datatype Request = ReadAt(s: nat, offset: nat, len: nat) | WriteAt(s: nat, offset: nat, buf: seq<Byte>) | FlushAll

  predicate RequestOk(q: Request, n: nat, bps: nat) {
    q.FlushAll? || (q.s < n && q.offset <= bps)
  }

  /** One request on a plain array. */
  function PlainOne(d: seq<Sector>, q: Request, bps: nat): (seq<Sector>, seq<Byte>) {
    match q
    case FlushAll => (d, [])
    case ReadAt(s, offset, len) =>
      if s < |d| && offset <= bps == |d[s]| then (d, d[s][offset..offset + Min(bps - offset, len)]) else (d, [])
    case WriteAt(s, offset, buf) =>
      if s < |d| && offset <= bps == |d[s]| then
        (d[s := Overlay(d[s], offset, buf[..Min(bps - offset, |buf|)])], [])
      else (d, [])
  }

  /** A run on a plain array: what it holds afterwards and what each request returned. */
  function Plain(d: seq<Sector>, run: seq<Request>, bps: nat): (seq<Sector>, seq<seq<Byte>>)
    decreases |run|
  {
    if run == [] then (d, [])
    else
      var before := Plain(d, run[..|run| - 1], bps);
      var r := PlainOne(before.0, run[|run| - 1], bps);
      (r.0, before.1 + [r.1])
  }

  /** Without a buffer in use the contents are those of the disk. */
  lemma {:induction false} AllInvalid(c: Cache, bps: nat)
    requires |c.flags| == |c.sidx| == |c.data| && c.lru == []
    requires forall i :: 0 <= i < |c.flags| ==> c.flags[i] == Invalid
    requires forall i :: 0 <= i < |c.data| ==> |c.data[i]| == bps
    requires forall i :: 0 <= i < |c.disk| ==> |c.disk[i]| == bps
    ensures Sized(c, bps) && Coherent(c) && LruOk(c, [])
    ensures forall s: nat :: OnDisk(c, s) ==> Logical(c, s) == c.disk[s + c.dsidx]
  {
    assert LastN([], |c.flags|) == [];
  }

  lemma LogicalSize(c: Cache, bps: nat, s: nat)
    requires Sized(c, bps) && Coherent(c) && OnDisk(c, s)
    ensures |Logical(c, s)| == bps
  {
    if i: nat :| Holds(c, i, s) { LogicalIs(c, i, s); }
  }

  lemma Redirty(c: Cache, b: nat, bps: nat)
    requires Sized(c, bps) && Coherent(c) && b < |c.flags| && c.flags[b] != Invalid
    ensures var d := Modify(c, b, c.data[b]); Sized(d, bps) && Coherent(d) && SameContents(c, d)
  {
    assert Holds(c, b, c.sidx[b]);
    LogicalIs(c, b, c.sidx[b]);
    ModifyWrites(c, b, c.data[b], bps);
  }

  lemma RedirtyLru(c: Cache, b: nat, trace: seq<nat>)
    requires LruOk(c, trace) && b < |c.flags| == |c.data| && c.flags[b] != Invalid
    ensures forall bytes :: LruOk(Modify(c, b, bytes), trace)
  {}

  lemma CleanedLru(c: Cache, i: nat, trace: seq<nat>)
    requires LruOk(c, trace) && i < |c.flags| == |c.data| && c.flags[i] != Invalid && OnDisk(c, c.sidx[i])
    ensures LruOk(WriteBack(c, i), trace)
  {}
}
