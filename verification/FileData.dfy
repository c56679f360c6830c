/** The bytes of a file given as clusters of sectors, and what the loops of fat32_read copy of them. */
module FileData {
  import opened Readings
  import opened Collections
  import opened CacheState

  /** The clusters of a chain, each its sectors. */
  type File = seq<seq<Sector>>

  predicate Shaped(f: File, spc: nat, bps: nat) {
    && spc > 0 && bps > 0
    && (forall i :: 0 <= i < |f| ==> |f[i]| == spc)
    && (forall i, j :: 0 <= i < |f| && 0 <= j < |f[i]| ==> |f[i][j]| == bps)
  }

  // ----- arithmetic

  function Div(a: nat, b: nat): nat
    requires b > 0
  {
    a / b
  }

  function Mod(a: nat, b: nat): (r: nat)
    requires b > 0
    ensures r < b
  {
    a % b
  }

  lemma DivMul(a: nat, b: nat)
    requires b > 0
    ensures a * b / b == a
  {
    DivUnique(a * b, b, a, 0);
  }

  lemma DivUnique(n: nat, m: nat, q: nat, r: nat)
    requires n == m * q + r && r < m
    ensures n / m == q && n % m == r
  {
    var e := n / m - q;
    assert m * e == r - n % m;
    if e != 0 { MulAtLeast(m, if e > 0 then e else -e); }
  }

  lemma MulAtLeast(m: nat, e: nat)
    requires e > 0
    ensures m * e >= m
  {}

  lemma MulStep(k: int, m: int)
    ensures (k + 1) * m == k * m + m
  {}

  lemma DivFacts(a: nat, b: nat)
    requires b > 0
    ensures a == a / b * b + a % b && a % b < b
  {}

  lemma SplitProduct(k: nat, spc: nat, j: nat, bps: nat)
    ensures (k * spc + j) * bps == k * (spc * bps) + j * bps
  {}

  lemma ProductLe(a: nat, b: nat, m: nat)
    requires a <= b
    ensures a * m <= b * m
  {
    assert b * m == a * m + (b - a) * m;
  }

  lemma ProductMono(a: nat, b: nat, m: nat)
    requires a * m < b * m
    ensures a < b
  {
    if b <= a { ProductLe(b, a, m); }
  }

  // ----- file bytes

  /** The concatenation of sectors. */
  function Join(sectors: seq<Sector>): seq<Byte>
    decreases |sectors|
  {
    if sectors == [] then [] else sectors[0] + Join(sectors[1..])
  }

  /** The concatenation of the clusters. */
  function FileBytes(f: File): seq<Byte>
    decreases |f|
  {
    if f == [] then [] else Join(f[0]) + FileBytes(f[1..])
  }

  /** The bytes from sector j of the first cluster on. */
  function BytesFrom(f: File, j: nat): seq<Byte> {
    if f == [] || j > |f[0]| then [] else Join(f[0][j..]) + FileBytes(f[1..])
  }

  lemma {:induction false} JoinLength(s: seq<Sector>, bps: nat)
    requires forall i :: 0 <= i < |s| ==> |s[i]| == bps
    ensures |Join(s)| == |s| * bps
    decreases |s|
  {
    if s != [] {
      JoinLength(s[1..], bps);
      MulStep(|s| - 1, bps);
    }
  }

  lemma {:induction false} JoinDrop(s: seq<Sector>, j: nat, bps: nat)
    requires j <= |s| && forall i :: 0 <= i < |s| ==> |s[i]| == bps
    ensures j * bps <= |Join(s)| && Join(s)[j * bps..] == Join(s[j..])
    decreases j
  {
    if j == 0 {
      assert s[0..] == s;
    } else {
      JoinDrop(s[1..], j - 1, bps);
      assert s[1..][j - 1..] == s[j..];
      MulStep(j - 1, bps);
      SkipConcat(s[0], Join(s[1..]), (j - 1) * bps);
    }
  }

  lemma SkipConcat<T>(a: seq<T>, b: seq<T>, k: nat)
    requires k <= |b|
    ensures (a + b)[|a| + k..] == b[k..]
  {}

  lemma {:induction false} FileLength(f: File, spc: nat, bps: nat, size: nat)
    requires Shaped(f, spc, bps) && size == spc * bps
    ensures |FileBytes(f)| == |f| * size
    decreases |f|
  {
    if f != [] {
      JoinLength(f[0], bps);
      FileLength(f[1..], spc, bps, size);
      MulStep(|f| - 1, size);
    }
  }

  lemma {:induction false} FileDrop(f: File, k: nat, spc: nat, bps: nat, size: nat)
    requires Shaped(f, spc, bps) && size == spc * bps && k <= |f|
    ensures k * size <= |FileBytes(f)| && FileBytes(f)[k * size..] == FileBytes(f[k..])
    decreases k
  {
    if k == 0 {
      assert f[0..] == f;
    } else {
      JoinLength(f[0], bps);
      FileDrop(f[1..], k - 1, spc, bps, size);
      assert f[1..][k - 1..] == f[k..];
      MulStep(k - 1, size);
      SkipConcat(Join(f[0]), FileBytes(f[1..]), (k - 1) * size);
    }
  }

  lemma DropDrop<T>(s: seq<T>, a: nat, b: nat)
    requires a + b <= |s|
    ensures s[a..][b..] == s[a + b..]
  {}

  lemma DropFromConcat<T>(a: seq<T>, b: seq<T>, k: nat)
    requires k <= |a|
    ensures (a + b)[k..] == a[k..] + b
  {}

  lemma DropTo<T>(s: seq<T>, t: seq<T>, u: seq<T>, a: nat, b: nat, o: nat, at: nat)
    requires a <= |s| && s[a..] == t && b <= |t| && o <= |u| && t[b..] == u[o..] && at == a + b
    ensures at <= |s| && s[at..] == u[o..]
  {}

  // ----- positions

  /** Where byte seek of a file is: k clusters to skip, sector j of the next one, byte o of that sector. */
  predicate Position(spc: nat, bps: nat, seek: nat, k: nat, j: nat, o: nat) {
    j < spc && o < bps && seek == k * (spc * bps) + j * bps + o
  }

  /** The divisions of lines 562-565. */
  function Skip(spc: nat, bps: nat, seek: nat): nat
    requires spc > 0 && bps > 0
  {
    Div(Div(seek, bps), spc)
  }

  function StartSector(spc: nat, bps: nat, seek: nat): (j: nat)
    requires spc > 0 && bps > 0
    ensures j < spc
  {
    Mod(Div(seek, bps), spc)
  }

  function StartByte(bps: nat, seek: nat): (o: nat)
    requires bps > 0
    ensures o < bps
  {
    Mod(seek, bps)
  }

  lemma StartPosition(spc: nat, bps: nat, seek: nat, s: nat, k: nat, j: nat, o: nat)
    requires spc > 0 && bps > 0 && s == Div(seek, bps)
    requires k == Skip(spc, bps, seek) && j == StartSector(spc, bps, seek) && o == StartByte(bps, seek)
    ensures Position(spc, bps, seek, k, j, o)
  {
    DivFacts(seek, bps);
    DivFacts(s, spc);
    SplitProduct(k, spc, j, bps);
  }

  ghost predicate SeeksTo(f: File, seek: nat, k: nat, j: nat, o: nat) {
    && k < |f| && j < |f[k]| && seek <= |FileBytes(f)| && o <= |BytesFrom(f[k..], j)|
    && FileBytes(f)[seek..] == BytesFrom(f[k..], j)[o..]
  }

  /** From byte seek of the file on: from that position on. */
  lemma {:induction false} SeekAt(f: File, spc: nat, bps: nat, seek: nat, k: nat, j: nat, o: nat)
    requires Shaped(f, spc, bps) && seek < |FileBytes(f)| && Position(spc, bps, seek, k, j, o)
    ensures SeeksTo(f, seek, k, j, o)
  {
    ProductLe(0, j, bps);
    ProductLe(0, spc, bps);
    SeekSized(f, spc, bps, seek, k, j, o, j * bps, spc * bps);
  }

  lemma {:induction false} SeekSized(f: File, spc: nat, bps: nat, seek: nat, k: nat, j: nat, o: nat, p: nat, size: nat)
    requires Shaped(f, spc, bps) && seek < |FileBytes(f)| && j < spc && o < bps
    requires p == j * bps && size == spc * bps && seek == k * size + p + o
    ensures SeeksTo(f, seek, k, j, o)
  {
    ProductLe(0, k, size);
    SeekCluster(f, spc, bps, seek, k, p + o, size, k * size);
    SeekInside(f[k..], spc, bps, j, o, p);
    DropTo(FileBytes(f), FileBytes(f[k..]), BytesFrom(f[k..], j), k * size, p + o, o, seek);
  }

  lemma {:induction false} SeekCluster(f: File, spc: nat, bps: nat, seek: nat, k: nat, p: nat, size: nat, at: nat)
    requires Shaped(f, spc, bps) && seek < |FileBytes(f)| && size == spc * bps && at == k * size && seek == at + p
    ensures k < |f| && at <= |FileBytes(f)| && FileBytes(f)[at..] == FileBytes(f[k..])
  {
    FileLength(f, spc, bps, size);
    ProductMono(k, |f|, size);
    FileDrop(f, k, spc, bps, size);
  }

  lemma {:induction false} SeekInside(f: File, spc: nat, bps: nat, j: nat, o: nat, p: nat)
    requires Shaped(f, spc, bps) && f != [] && j < spc && o < bps && p == j * bps
    ensures p + o <= |FileBytes(f)| && o <= |BytesFrom(f, j)|
    ensures FileBytes(f)[p + o..] == BytesFrom(f, j)[o..]
  {
    var cl, tail := Join(f[0]), FileBytes(f[1..]);
    JoinDrop(f[0], j, bps);
    JoinLength(f[0], bps);
    ProductLe(j + 1, spc, bps);
    MulStep(j, bps);
    DropFromConcat(cl, tail, p);
    DropDrop(cl + tail, p, o);
  }

  // ----- reading as the loops of fat32_read do

  /** What fat32_read copies from sector j of the first cluster on, starting at byte o, n bytes at most.
      AsWritten: the offset is reset only when a new cluster starts (line 587).
      Intended: it is reset after each sector. */
  function ReadFrom(f: File, j: nat, o: nat, n: nat, bps: nat, r: Reading): seq<Byte>
    requires o <= bps
    decreases |f|, if f == [] then 0 else |f[0]| - j
  {
    if f == [] then []
    else if j >= |f[0]| then ReadFrom(f[1..], 0, 0, n, bps, r)
    else
      var piece := Slice(f[0][j], o, Min(bps - o, n));
      if |piece| >= n then piece
      else piece + ReadFrom(f, j + 1, if r.Intended? then 0 else o, n - |piece|, bps, r)
  }

  function Slice(s: seq<Byte>, o: nat, len: nat): seq<Byte> {
    if o + len <= |s| then s[o..o + len] else []
  }

  /** One sector of a read. */
  lemma ReadStep(f: File, j: nat, o: nat, n: nat, bps: nat, r: Reading)
    requires f != [] && j < |f[0]| && |f[0][j]| == bps && o < bps
    ensures bps - o >= n ==> ReadFrom(f, j, o, n, bps, r) == f[0][j][o..o + n]
    ensures bps - o < n ==>
              ReadFrom(f, j, o, n, bps, r)
              == f[0][j][o..] + ReadFrom(f, j + 1, if r.Intended? then 0 else o, n - (bps - o), bps, r)
  {
    hide Slice;
    SliceIs(f[0][j], o, Min(bps - o, n));
    assert f[0][j][o..bps] == f[0][j][o..];
  }

  lemma SliceIs(s: seq<Byte>, o: nat, len: nat)
    requires o + len <= |s|
    ensures Slice(s, o, len) == s[o..o + len]
  {}

  /** The bytes copied as intended are those of the file from there on. */
  predicate ReadsFile(f: File, j: nat, o: nat, n: nat, bps: nat)
    requires o <= bps
  {
    && o <= |BytesFrom(f, j)|
    && ReadFrom(f, j, o, n, bps, Intended) == BytesFrom(f, j)[o..Min(o + n, |BytesFrom(f, j)|)]
  }

  /** As intended the copied bytes are exactly those of the file from there on. */
  lemma {:induction false} IntendedReadsFile(f: File, spc: nat, bps: nat, j: nat, o: nat, n: nat)
    requires Shaped(f, spc, bps) && j <= spc && (f == [] ==> o == 0)
    requires if j == spc then o == 0 else o < bps
    ensures ReadsFile(f, j, o, n, bps)
    decreases |f|, spc - j
  {
    if f != [] {
      if j == spc {
        IntendedReadsFile(f[1..], spc, bps, 0, 0, n);
        IntendedNext(f, j, n, bps);
      } else {
        if bps - o < n {
          IntendedReadsFile(f, spc, bps, j + 1, 0, n - (bps - o));
          IntendedMore(f, j, o, n, bps);
        } else {
          IntendedLast(f, j, o, n, bps);
        }
      }
    }
  }

  lemma IntendedLast(f: File, j: nat, o: nat, n: nat, bps: nat)
    requires f != [] && j < |f[0]| && |f[0][j]| == bps && o < bps && n <= bps - o
    ensures ReadsFile(f, j, o, n, bps)
  {
    hide ReadFrom, BytesFrom;
    ReadStep(f, j, o, n, bps, Intended);
    FromSector(f, j);
  }

  lemma IntendedMore(f: File, j: nat, o: nat, n: nat, bps: nat)
    requires f != [] && j < |f[0]| && |f[0][j]| == bps && o < bps && n > bps - o
    requires ReadsFile(f, j + 1, 0, n - (bps - o), bps)
    ensures ReadsFile(f, j, o, n, bps)
  {
    ReadStep(f, j, o, n, bps, Intended);
    FromSector(f, j);
    SectorThenRest(f[0][j], BytesFrom(f, j + 1), o, n, n - (bps - o),
                   ReadFrom(f, j + 1, 0, n - (bps - o), bps, Intended),
                   ReadFrom(f, j, o, n, bps, Intended));
  }

  lemma IntendedNext(f: File, j: nat, n: nat, bps: nat)
    requires f != [] && j == |f[0]| && ReadsFile(f[1..], 0, 0, n, bps)
    ensures ReadsFile(f, j, 0, n, bps)
  {
    FromNext(f);
  }

  lemma SectorThenRest(s: seq<Byte>, rest: seq<Byte>, o: nat, n: nat, left: nat, next: seq<Byte>, read: seq<Byte>)
    requires o < |s| && |s| - o < n && left == n - (|s| - o)
    requires next == rest[0..Min(0 + left, |rest|)] && read == s[o..] + next
    ensures read == (s + rest)[o..Min(o + n, |s + rest|)]
  {
    SliceConcat(s, rest, o, n);
  }

  lemma SliceConcat(s: seq<Byte>, rest: seq<Byte>, o: nat, n: nat)
    requires o <= |s|
    ensures var k := Min(|s| - o, n);
            (s + rest)[o..Min(o + n, |s + rest|)] == s[o..o + k] + rest[..Min(n - k, |rest|)]
  {}

  lemma FromNext(f: File)
    requires f != []
    ensures BytesFrom(f, |f[0]|) == BytesFrom(f[1..], 0)
  {
    assert f[0][|f[0]|..] == [];
    assert BytesFrom(f, |f[0]|) == FileBytes(f[1..]);
    if f[1..] != [] { assert f[1..][0][0..] == f[1..][0]; }
  }

  lemma FromSector(f: File, j: nat)
    requires f != [] && j < |f[0]|
    ensures BytesFrom(f, j) == f[0][j] + BytesFrom(f, j + 1)
  {
    var t := f[0][j..];
    assert t[0] == f[0][j] && t[1..] == f[0][j + 1..];
    assert Join(t) == t[0] + Join(t[1..]);
    assert (t[0] + Join(t[1..])) + FileBytes(f[1..]) == t[0] + (Join(t[1..]) + FileBytes(f[1..]));
  }

  /** Starting at a sector boundary both readings agree. */
  lemma {:induction false} AlignedAgrees(f: File, j: nat, n: nat, bps: nat)
    ensures ReadFrom(f, j, 0, n, bps, AsWritten) == ReadFrom(f, j, 0, n, bps, Intended)
    decreases |f|, if f == [] then 0 else |f[0]| - j
  {
    if f != [] {
      if j >= |f[0]| {
        AlignedAgrees(f[1..], 0, n, bps);
      } else {
        var piece := Slice(f[0][j], 0, Min(bps, n));
        if |piece| < n { AlignedAgrees(f, j + 1, n - |piece|, bps); }
      }
    }
  }

  /** The reads that line 587 gets right: sector-aligned, within one sector, or starting in the last sector
      of a cluster. */
  predicate SafeRead(spc: nat, bps: nat, j: nat, o: nat, n: nat) {
    o == 0 || n <= bps - o || j == spc - 1
  }

  lemma {:induction false} SafeAgrees(f: File, spc: nat, bps: nat, j: nat, o: nat, n: nat)
    requires Shaped(f, spc, bps) && j < spc && o < bps && SafeRead(spc, bps, j, o, n)
    ensures ReadFrom(f, j, o, n, bps, AsWritten) == ReadFrom(f, j, o, n, bps, Intended)
  {
    if o == 0 {
      AlignedAgrees(f, j, n, bps);
    } else if f != [] {
      var piece := Slice(f[0][j], o, Min(bps - o, n));
      if |piece| < n {
        AlignedAgrees(f[1..], 0, n - |piece|, bps);
        assert ReadFrom(f, j + 1, o, n - |piece|, bps, AsWritten)
               == ReadFrom(f[1..], 0, 0, n - |piece|, bps, AsWritten);
        assert ReadFrom(f, j + 1, 0, n - |piece|, bps, Intended) == ReadFrom(f[1..], 0, 0, n - |piece|, bps, Intended);
      }
    }
  }

  /** What stands after the first piece of a read that reaches the next sector. */
  lemma {:induction false} SecondByte(f: File, spc: nat, bps: nat, j: nat, o: nat, n: nat, r: Reading)
    requires Shaped(f, spc, bps) && f != [] && j + 1 < spc && o < bps && n > bps - o
    ensures var out := ReadFrom(f, j, o, n, bps, r);
            |out| > bps - o && out[bps - o] == f[0][j + 1][if r.Intended? then 0 else o]
  {
    ReadStep(f, j, o, n, bps, r);
    SecondPiece(f, spc, bps, j + 1, if r.Intended? then 0 else o, n - (bps - o), r);
  }

  lemma {:induction false} SecondPiece(f: File, spc: nat, bps: nat, j: nat, o: nat, n: nat, r: Reading)
    requires Shaped(f, spc, bps) && f != [] && j < spc && o < bps && n > 0
    ensures |ReadFrom(f, j, o, n, bps, r)| > 0 && ReadFrom(f, j, o, n, bps, r)[0] == f[0][j][o]
  {}

  /** Exactly the safe reads return the file's bytes whatever the sectors contain. */
  lemma {:induction false} ReadRightIffSafe(spc: nat, bps: nat, clusters: nat, j: nat, o: nat, n: nat)
    requires clusters > 0 && j < spc && o < bps
    ensures SafeRead(spc, bps, j, o, n)
            <==> forall f: File :: |f| == clusters && Shaped(f, spc, bps) ==>
                   ReadFrom(f, j, o, n, bps, AsWritten) == ReadFrom(f, j, o, n, bps, Intended)
  {
    if SafeRead(spc, bps, j, o, n) {
      forall f: File | |f| == clusters && Shaped(f, spc, bps)
        ensures ReadFrom(f, j, o, n, bps, AsWritten) == ReadFrom(f, j, o, n, bps, Intended)
      {
        SafeAgrees(f, spc, bps, j, o, n);
      }
    } else {
      // every sector starts with a mark
      var marked: Sector := [1] + seq(bps - 1, _ => 0);
      var f: File := seq(clusters, _ => seq(spc, _ => marked));
      assert Shaped(f, spc, bps);
      SecondByte(f, spc, bps, j, o, n, AsWritten);
      SecondByte(f, spc, bps, j, o, n, Intended);
      assert f[0][j + 1] == marked && marked[0] != marked[o];
    }
  }

  // ----- a whole read

  /** The seeks that line 587 gets right. */
  predicate SafeSeek(spc: nat, bps: nat, seek: nat, n: nat)
    requires spc > 0 && bps > 0
  {
    SafeRead(spc, bps, StartSector(spc, bps, seek), StartByte(bps, seek), n)
  }

  /** A safe read returns the bytes of the file from seek on, cut off at n bytes or at the end of the chain. */
  lemma {:induction false} SafeReadIsSlice(f: File, spc: nat, bps: nat, seek: nat, n: nat, k: nat, j: nat, o: nat)
    requires Shaped(f, spc, bps) && SeeksTo(f, seek, k, j, o) && o < bps && SafeRead(spc, bps, j, o, n)
    ensures ReadFrom(f[k..], j, o, n, bps, AsWritten) == FileBytes(f)[seek..Min(seek + n, |FileBytes(f)|)]
  {
    SafeAgrees(f[k..], spc, bps, j, o, n);
    IntendedReadsFile(f[k..], spc, bps, j, o, n);
    SameTail(FileBytes(f), BytesFrom(f[k..], j), seek, o, n);
  }

  lemma SameTail(f: seq<Byte>, b: seq<Byte>, seek: nat, o: nat, n: nat)
    requires seek <= |f| && o <= |b| && f[seek..] == b[o..]
    ensures f[seek..Min(seek + n, |f|)] == b[o..Min(o + n, |b|)]
  {
    assert f[seek..Min(seek + n, |f|)] == f[seek..][..Min(n, |f| - seek)];
    assert b[o..Min(o + n, |b|)] == b[o..][..Min(n, |b| - o)];
  }

  /** A read in progress: buf is copied, and unless it is done the rest starts at sector j, byte o. */
  predicate Progress(f: File, j: nat, o: nat, bufLen: nat, bps: nat, buf: seq<Byte>, done: bool, all: seq<Byte>)
    requires o <= bps
  {
    |buf| <= bufLen && all == if done then buf else buf + ReadFrom(f, j, o, bufLen - |buf|, bps, AsWritten)
  }

  lemma ProgressSector(f: File, j: nat, o: nat, bufLen: nat, bps: nat, buf: seq<Byte>, after: seq<Byte>, all: seq<Byte>)
    requires f != [] && j < |f[0]| && |f[0][j]| == bps && o < bps
    requires Progress(f, j, o, bufLen, bps, buf, false, all)
    requires after == buf + f[0][j][o..o + Min(bps - o, bufLen - |buf|)]
    ensures Progress(f, j + 1, o, bufLen, bps, after, |after| == bufLen, all)
  {
    ReadStep(f, j, o, bufLen - |buf|, bps, AsWritten);
  }

  lemma ProgressCluster(f: File, j: nat, o: nat, bufLen: nat, bps: nat, buf: seq<Byte>, done: bool, all: seq<Byte>)
    requires f != [] && (done || j >= |f[0]|) && o <= bps && Progress(f, j, o, bufLen, bps, buf, done, all)
    ensures Progress(f[1..], 0, 0, bufLen, bps, buf, done, all)
  {}

  lemma ProgressEnd(f: File, j: nat, o: nat, bufLen: nat, bps: nat, buf: seq<Byte>, done: bool, all: seq<Byte>)
    requires (done || f == []) && o <= bps && Progress(f, j, o, bufLen, bps, buf, done, all)
    ensures buf == all
  {}
}
