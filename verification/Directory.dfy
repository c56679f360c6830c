/** Directories as flat lists of 32-byte entries: free runs, and the objects one uninterrupted scan finds. */
module Directory {
  import opened Collections
  import opened CacheState
  import opened FileData
  import opened FatLayout

  /** A directory entry: the cluster it is in, its index in that cluster, its bytes. */
  datatype Slot = Slot(cidx: nat, off: nat, bytes: seq<Byte>)

  const ENTRY: nat := 32

  function Entry(s: Sector, i: nat): seq<Byte> {
    if i + ENTRY <= |s| then s[i..i + ENTRY] else []
  }

  /** The entries from byte i of sector j of the first cluster on. */
  function Slots(f: File, clusters: seq<nat>, j: nat, i: nat, bps: nat): seq<Slot>
    decreases |f|, if f == [] then 0 else |f[0]| - j, bps - i
  {
    if f == [] || clusters == [] then []
    else if j >= |f[0]| then Slots(f[1..], clusters[1..], 0, 0, bps)
    else if i >= bps then Slots(f, clusters, j + 1, 0, bps)
    else [Slot(clusters[0], (j * bps + i) / ENTRY, Entry(f[0][j], i))] + Slots(f, clusters, j, i + ENTRY, bps)
  }

  function Flat(slots: seq<Slot>): seq<Byte>
    decreases |slots|
  {
    if slots == [] then [] else slots[0].bytes + Flat(slots[1..])
  }

  /** Byte i of sector j up to the end of the chain. */
  predicate BytesAt(f: File, j: nat, i: nat, slots: seq<Slot>) {
    i <= |BytesFrom(f, j)| && Flat(slots) == BytesFrom(f, j)[i..]
  }

  lemma {:induction false} SlotsStep(f: File, clusters: seq<nat>, j: nat, i: nat, bps: nat)
    requires |clusters| == |f|
    ensures var slots := Slots(f, clusters, j, i, bps);
            if f == [] then slots == []
            else if j >= |f[0]| then slots == Slots(f[1..], clusters[1..], 0, 0, bps)
            else if i >= bps then slots == Slots(f, clusters, j + 1, 0, bps)
            else
              && slots != [] && slots[0] == Slot(clusters[0], (j * bps + i) / ENTRY, Entry(f[0][j], i))
              && slots[1..] == Slots(f, clusters, j, i + ENTRY, bps)
  {}

  /** The entries of a directory are its bytes, cut every 32 bytes; none straddles a sector. */
  lemma {:induction false} SlotsAreBytes(f: File, clusters: seq<nat>, spc: nat, bps: nat, j: nat, i: nat)
    requires Shaped(f, spc, bps) && |clusters| == |f| && bps % ENTRY == 0 && i % ENTRY == 0
    requires j <= spc && i <= bps && (f == [] || j == spc ==> i == 0)
    ensures BytesAt(f, j, i, Slots(f, clusters, j, i, bps))
    decreases |f|, spc - j, bps - i
  {
    hide BytesAt, Entry, Slots;
    SlotsStep(f, clusters, j, i, bps);
    if f == [] {
      AtChainEnd(f, j);
    } else {
      if j == spc {
        SlotsAreBytes(f[1..], clusters[1..], spc, bps, 0, 0);
        BytesNext(f, j, Slots(f[1..], clusters[1..], 0, 0, bps));
      } else if i == bps {
        SlotsAreBytes(f, clusters, spc, bps, j + 1, 0);
        BytesSector(f, j, i, Slots(f, clusters, j + 1, 0, bps));
      } else {
        SlotsAreBytes(f, clusters, spc, bps, j, i + ENTRY);
        FirstEntry(f, j, i, bps, Slots(f, clusters, j, i, bps), Slots(f, clusters, j, i + ENTRY, bps));
      }
    }
  }

  lemma AtChainEnd(f: File, j: nat)
    requires f == []
    ensures BytesAt(f, j, 0, [])
  {}

  lemma BytesNext(f: File, j: nat, slots: seq<Slot>)
    requires f != [] && j == |f[0]| && BytesAt(f[1..], 0, 0, slots)
    ensures BytesAt(f, j, 0, slots)
  {
    FromNext(f);
  }

  lemma BytesSector(f: File, j: nat, i: nat, slots: seq<Slot>)
    requires f != [] && j < |f[0]| && i == |f[0][j]| && BytesAt(f, j + 1, 0, slots)
    ensures BytesAt(f, j, i, slots)
  {
    FromSector(f, j);
  }

  lemma FirstEntry(f: File, j: nat, i: nat, bps: nat, slots: seq<Slot>, rest: seq<Slot>)
    requires f != [] && j < |f[0]| && |f[0][j]| == bps && i + ENTRY <= bps
    requires slots != [] && slots[0].bytes == Entry(f[0][j], i) && slots[1..] == rest && BytesAt(f, j, i + ENTRY, rest)
    ensures BytesAt(f, j, i, slots)
  {
    hide BytesFrom;
    FromSector(f, j);
    var b := BytesFrom(f, j);
    assert Entry(f[0][j], i) == b[i..i + ENTRY];
    assert b[i..] == b[i..i + ENTRY] + b[i + ENTRY..];
  }

  // ----- walking along the entries

  /** Entry p of the list is the one at byte i of sector j of f. */
  predicate AtSlot(slots: seq<Slot>, p: nat, f: File, clusters: seq<nat>, j: nat, i: nat, bps: nat) {
    p <= |slots| && slots[p..] == Slots(f, clusters, j, i, bps)
  }

  lemma AtEntry(slots: seq<Slot>, p: nat, f: File, clusters: seq<nat>, j: nat, i: nat, bps: nat)
    requires AtSlot(slots, p, f, clusters, j, i, bps) && f != [] && clusters != [] && j < |f[0]| && i < bps
    ensures p < |slots| && slots[p] == Slot(clusters[0], (j * bps + i) / ENTRY, Entry(f[0][j], i))
    ensures AtSlot(slots, p + 1, f, clusters, j, i + ENTRY, bps)
  {
    assert slots[p..][0] == slots[p] && slots[p..][1..] == slots[p + 1..];
  }

  lemma AtSector(slots: seq<Slot>, p: nat, f: File, clusters: seq<nat>, j: nat, i: nat, bps: nat)
    requires AtSlot(slots, p, f, clusters, j, i, bps) && f != [] && clusters != [] && j < |f[0]| && i >= bps
    ensures AtSlot(slots, p, f, clusters, j + 1, 0, bps)
  {}

  lemma AtCluster(slots: seq<Slot>, p: nat, f: File, clusters: seq<nat>, j: nat, i: nat, bps: nat)
    requires AtSlot(slots, p, f, clusters, j, i, bps) && f != [] && clusters != [] && j >= |f[0]|
    ensures AtSlot(slots, p, f[1..], clusters[1..], 0, 0, bps)
  {}

  lemma AtEnd(slots: seq<Slot>, p: nat, f: File, clusters: seq<nat>, j: nat, i: nat, bps: nat)
    requires AtSlot(slots, p, f, clusters, j, i, bps) && (f == [] || clusters == [])
    ensures p == |slots|
  {}

  // ----- free runs

  const DIRNAME_FREE: Byte := 0xe5
  const DIRNAME_RES_FREE: Byte := 0x00

  predicate FreeMark(b: seq<Byte>) {
    b != [] && (b[0] == DIRNAME_FREE || b[0] == DIRNAME_RES_FREE)
  }

  /** Entries s to s + n - 1 are free. */
  predicate FreeRun(slots: seq<Slot>, s: nat, n: nat) {
    s + n <= |slots| && forall k :: s <= k < s + n ==> FreeMark(slots[k].bytes)
  }

  predicate FirstRun(slots: seq<Slot>, s: nat, n: nat) {
    FreeRun(slots, s, n) && forall t: nat :: t < s ==> !FreeRun(slots, t, n)
  }

  /** last_avail, avail_entry_cnt, avail_entry_cidx, avail_entry_offset */
  datatype Search = Search(last: bool, cnt: nat, cidx: nat, off: nat)

  /** What the search knows after p entries without success: the free run that ends there. */
  ghost predicate Tracking(slots: seq<Slot>, p: nat, st: Search, num: nat) {
    && p <= |slots|
    && (num > 0 ==> forall t: nat :: t + num <= p ==> !FreeRun(slots, t, num))
    && (if st.last then
          && 0 < st.cnt <= p && FreeRun(slots, p - st.cnt, st.cnt) && (num > 0 ==> st.cnt < num)
          && (st.cnt < p ==> !FreeMark(slots[p - st.cnt - 1].bytes))
          && st.cidx == slots[p - st.cnt].cidx && st.off == slots[p - st.cnt].off
        else p > 0 ==> !FreeMark(slots[p - 1].bytes))
  }

  // lines 239-245 and 252
  function Extend(st: Search, slot: Slot): Search {
    if st.last then st.(cnt := st.cnt + 1) else Search(true, 1, slot.cidx, slot.off)
  }

  lemma TrackFree(slots: seq<Slot>, p: nat, st: Search, num: nat)
    requires Tracking(slots, p, st, num) && p < |slots| && FreeMark(slots[p].bytes)
    ensures var t := Extend(st, slots[p]);
            if t.cnt == num then
              && num > 0 && num <= p + 1 && FirstRun(slots, p + 1 - num, num)
              && t.cidx == slots[p + 1 - num].cidx && t.off == slots[p + 1 - num].off
            else Tracking(slots, p + 1, t, num)
  {
    var t := Extend(st, slots[p]);
    var s := p + 1 - t.cnt;
    assert FreeRun(slots, s, t.cnt);
    assert s > 0 ==> !FreeMark(slots[s - 1].bytes);
    forall r: nat | num > 0 && r + num <= p + 1 && (t.cnt != num || r < s) ensures !FreeRun(slots, r, num) {
      if r < s { assert s > 0 && !FreeMark(slots[s - 1].bytes); }
    }
  }

  lemma TrackBusy(slots: seq<Slot>, p: nat, st: Search, num: nat)
    requires Tracking(slots, p, st, num) && p < |slots| && !FreeMark(slots[p].bytes)
    ensures Tracking(slots, p + 1, st.(last := false), num)
  {}

  // ----- what an entry is

  datatype Kind = FreeEntry | LongName | FileEntry | DirEntry | OtherEntry

  /** Byte 11 under FAT32_ATTR_LONG_NAME_MASK (its low six bits) and under the volume and directory bits. */
  function KindOf(b: seq<Byte>): Kind {
    if |b| != ENTRY || FreeMark(b) then FreeEntry
    else if b[11] % 0x40 == 0x0f then LongName
    else if b[11] / 8 % 4 == 0 then FileEntry
    else if b[11] / 8 % 4 == 2 then DirEntry
    else OtherEntry
  }

  predicate IsObject(b: seq<Byte>) {
    KindOf(b).FileEntry? || KindOf(b).DirEntry?
  }

  // the 13 two-byte characters of a long-name entry
  function Units(b: seq<Byte>): seq<nat> {
    [Le16(b, 1), Le16(b, 3), Le16(b, 5), Le16(b, 7), Le16(b, 9),
     Le16(b, 14), Le16(b, 16), Le16(b, 18), Le16(b, 20), Le16(b, 22), Le16(b, 24),
     Le16(b, 28), Le16(b, 30)]
  }

  // fat32_copy_name_long: low bytes, stopping at 0xffff; only a full entry gets a terminator
  function CopyLong(units: seq<nat>): seq<Byte>
    decreases |units|
  {
    if units == [] then [0] else if units[0] == 0xffff then [] else [units[0] % 0x100] + CopyLong(units[1..])
  }

  /** The C string at the start of a buffer; None when it is not terminated. */
  function CString(b: seq<Byte>): Option<seq<Byte>>
    decreases |b|
  {
    if b == [] then None
    else if b[0] == 0 then Some([])
    else
      match CString(b[1..])
      case None => None
      case Some(s) => Some([b[0]] + s)
  }

  function Piece(b: seq<Byte>): Option<seq<Byte>> {
    CString(CopyLong(Units(b)))
  }

  /** The strcpy_end loops of lines 404-407 and 434-437; None when they read past a piece. */
  function JoinPieces(pieces: seq<Option<seq<Byte>>>): Option<seq<Byte>>
    decreases |pieces|
  {
    if pieces == [] then Some([])
    else
      match (pieces[0], JoinPieces(pieces[1..]))
      case (Some(a), Some(b)) => Some(a + b)
      case _ => None
  }

  function UpToSpace(b: seq<Byte>): seq<Byte>
    decreases |b|
  {
    if b == [] || b[0] == 0x20 then [] else [b[0]] + UpToSpace(b[1..])
  }

  // fat32_copy_name_short
  function ShortName(b: seq<Byte>): seq<Byte>
    requires |b| == ENTRY
  {
    if b[5] == 0x20 then UpToSpace(b[..8]) + [0] else UpToSpace(b[..8]) + [0x2e] + UpToSpace(b[8..11]) + [0]
  }

  /** long_fn: a string, or the reformatted short name of a directory without long-name entries. */
  datatype Name = Long(chars: seq<Byte>) | FromShort

  datatype Object =
    | FileObject(cidx: nat, size: nat, name: Name, short: seq<Byte>)
    | DirObject(cidx: nat, name: Name, short: seq<Byte>)

  const DOT: Byte := 0x2e

  predicate Dotted(short: seq<Byte>) {
    short != [] && short[0] == DOT
  }

  predicate DotDot(short: seq<Byte>) {
    Dotted(short) && |short| > 1 && short[1] == DOT
  }

  function FirstCluster(b: seq<Byte>): nat {
    Le16(b, 20) * 0x1_0000 + Le16(b, 26)
  }

  /** The object of a directory entry, given the long-name pieces seen before it; None: a piece without
      terminator is read past its end. */
  function MakeObject(b: seq<Byte>, pieces: seq<Option<seq<Byte>>>, root: nat): Option<Object>
    requires |b| == ENTRY
  {
    var c, short := FirstCluster(b), ShortName(b);
    match JoinPieces(pieces)
    case None => None
    case Some(chars) =>
      Some(if KindOf(b).FileEntry? then FileObject(c, Le32(b, 28), Long(chars), short)
           else if pieces != [] then DirObject(c, Long(chars), short)
           else if DotDot(short) then DirObject(if c == 0 then root else c, Long([DOT, DOT]), short)
           else if Dotted(short) then DirObject(c, Long([DOT]), short)
           else DirObject(c, FromShort, short))
  }

  // ----- one step of the scan

  const FN_STACK: nat := 10 // FAT32_LONG_FN_STACK_NUM

  /** Found: the next object, and how many entries were used up. Fault: more long-name entries than the
      name stack holds, or a piece without terminator. */
  datatype Scanned = Found(obj: Object, used: nat) | Finished | Fault

  function Bump(r: Scanned, n: nat): Scanned {
    if r.Found? then r.(used := r.used + n) else r
  }

  /** The next object from the start of the list; pieces are the long-name entries seen so far, last one first. */
  function Scan(slots: seq<Slot>, pieces: seq<Option<seq<Byte>>>, root: nat): Scanned
    decreases |slots|
  {
    if slots == [] then Finished
    else
      var b := slots[0].bytes;
      match KindOf(b)
      case FreeEntry => Bump(Scan(slots[1..], pieces, root), 1)
      case LongName => if |pieces| >= FN_STACK then Fault else Bump(Scan(slots[1..], [Piece(b)] + pieces, root), 1)
      case OtherEntry => Bump(Scan(slots[1..], [], root), 1)
      case _ =>
        match MakeObject(b, pieces, root)
        case None => Fault
        case Some(o) => Found(o, 1)
  }

  /** All objects of one uninterrupted scan; None when it faults. */
  function Objects(slots: seq<Slot>, pieces: seq<Option<seq<Byte>>>, root: nat): Option<seq<Object>>
    decreases |slots|
  {
    if slots == [] then Some([])
    else
      var b := slots[0].bytes;
      match KindOf(b)
      case FreeEntry => Objects(slots[1..], pieces, root)
      case LongName => if |pieces| >= FN_STACK then None else Objects(slots[1..], [Piece(b)] + pieces, root)
      case OtherEntry => Objects(slots[1..], [], root)
      case _ => Prepend(MakeObject(b, pieces, root), Objects(slots[1..], [], root))
  }

  function Prepend(o: Option<Object>, rest: Option<seq<Object>>): Option<seq<Object>> {
    if o.None? || rest.None? then None else Some([o.value] + rest.value)
  }

  lemma {:induction false} ScanUses(slots: seq<Slot>, pieces: seq<Option<seq<Byte>>>, root: nat)
    ensures Scan(slots, pieces, root).Found? ==> 0 < Scan(slots, pieces, root).used <= |slots|
    decreases |slots|
  {
    if slots != [] {
      ScanUses(slots[1..], pieces, root);
      ScanUses(slots[1..], [Piece(slots[0].bytes)] + pieces, root);
      ScanUses(slots[1..], [], root);
    }
  }

  ghost predicate Resumes(slots: seq<Slot>, pieces: seq<Option<seq<Byte>>>, root: nat) {
    match Scan(slots, pieces, root)
    case Finished => Objects(slots, pieces, root) == Some([])
    case Fault => Objects(slots, pieces, root) == None
    case Found(o, n) =>
        0 < n <= |slots| && Objects(slots, pieces, root) == Prepend(Some(o), Objects(slots[n..], [], root))
  }

  /** Stopping at an object and starting afresh after it finds what going on would find. */
  lemma {:induction false} ScanResumes(slots: seq<Slot>, pieces: seq<Option<seq<Byte>>>, root: nat)
    ensures Resumes(slots, pieces, root)
    decreases |slots|
  {
    if slots != [] {
      var rest, b := slots[1..], slots[0].bytes;
      var next := NextPieces(b, pieces);
      ScanUses(rest, next, root);
      ScanResumes(rest, next, root);
      if Scan(rest, next, root).Found? {
        assert rest[Scan(rest, next, root).used..] == slots[Scan(rest, next, root).used + 1..];
      }
    }
  }

  // the pieces on the name stack after an entry that is not an object
  function NextPieces(b: seq<Byte>, pieces: seq<Option<seq<Byte>>>): seq<Option<seq<Byte>>> {
    match KindOf(b)
    case FreeEntry => pieces
    case LongName => [Piece(b)] + pieces
    case _ => []
  }

  // ----- what the scan finds

  /** The entries of files and directories. */
  function InUse(slots: seq<Slot>): seq<Slot>
    decreases |slots|
  {
    if slots == [] then []
    else if IsObject(slots[0].bytes) then [slots[0]] + InUse(slots[1..])
    else InUse(slots[1..])
  }

  /** o describes the entry: its kind, its short name, and its cluster unless it is a ".." of the root. */
  predicate Describes(o: Object, b: seq<Byte>, root: nat) {
    && |b| == ENTRY && o.short == ShortName(b)
    && (o.FileObject? <==> KindOf(b).FileEntry?)
    && (o.FileObject? ==> o.size == Le32(b, 28))
    && (o.cidx == FirstCluster(b) || (DotDot(o.short) && FirstCluster(b) == 0 && o.cidx == root))
  }

  predicate DescribesAll(objs: seq<Object>, slots: seq<Slot>, root: nat) {
    |objs| == |slots| && forall i :: 0 <= i < |objs| ==> Describes(objs[i], slots[i].bytes, root)
  }

  /** The scan finds every file and directory entry once, in order. */
  lemma {:induction false} ObjectsAreEntries(slots: seq<Slot>, pieces: seq<Option<seq<Byte>>>, root: nat)
    requires Objects(slots, pieces, root).Some?
    ensures DescribesAll(Objects(slots, pieces, root).value, InUse(slots), root)
    decreases |slots|
  {
    hide CString, CopyLong, JoinPieces, ShortName, Le32, Le16, FreeMark;
    if slots != [] {
      var b := slots[0].bytes;
      ObjectsAreEntries(slots[1..], NextPieces(b, pieces), root);
    }
  }

  /** The long-name entries that belong to the entry after the list, last one first: those reached going back
      over free and long-name entries only. */
  function PiecesBefore(slots: seq<Slot>): seq<Option<seq<Byte>>>
    decreases |slots|
  {
    if slots == [] then []
    else NextPieces(slots[|slots| - 1].bytes, PiecesBefore(slots[..|slots| - 1]))
  }

  ghost predicate NamedRight(slots: seq<Slot>, p: nat, r: Scanned, root: nat) {
    r.Found? ==>
      var m := p + r.used;
      && p < m <= |slots| && IsObject(slots[m - 1].bytes)
      && (forall k :: p <= k < m - 1 ==> !IsObject(slots[k].bytes))
      && |slots[m - 1].bytes| == ENTRY
      && Some(r.obj) == MakeObject(slots[m - 1].bytes, PiecesBefore(slots[..m - 1]), root)
  }

  /** One entry of a scan. */
  lemma {:induction false} ScanStep(slots: seq<Slot>, p: nat, pieces: seq<Option<seq<Byte>>>, root: nat)
    requires p < |slots|
    ensures var b, r := slots[p].bytes, Scan(slots[p..], pieces, root);
            if IsObject(b) then
              |b| == ENTRY && r == match MakeObject(b, pieces, root) case None => Fault case Some(o) => Found(o, 1)
            else if KindOf(b).LongName? && |pieces| >= FN_STACK then r == Fault
            else r == Bump(Scan(slots[p + 1..], NextPieces(b, pieces), root), 1)
  {
    assert slots[p..][0] == slots[p] && slots[p..][1..] == slots[p + 1..];
  }

  lemma PiecesStep(slots: seq<Slot>, p: nat)
    requires p < |slots|
    ensures PiecesBefore(slots[..p + 1]) == NextPieces(slots[p].bytes, PiecesBefore(slots[..p]))
  {
    assert slots[..p + 1][..p] == slots[..p] && slots[..p + 1][p] == slots[p];
  }

  lemma NamedLater(slots: seq<Slot>, p: nat, r: Scanned, root: nat)
    requires p < |slots| && !IsObject(slots[p].bytes) && NamedRight(slots, p + 1, r, root)
    ensures NamedRight(slots, p, Bump(r, 1), root)
  {
    hide IsObject, MakeObject, PiecesBefore;
  }

  lemma NamedHere(slots: seq<Slot>, p: nat, o: Object, root: nat)
    requires p < |slots| && IsObject(slots[p].bytes) && |slots[p].bytes| == ENTRY
    requires Some(o) == MakeObject(slots[p].bytes, PiecesBefore(slots[..p]), root)
    ensures NamedRight(slots, p, Found(o, 1), root)
  {
    hide IsObject, MakeObject, PiecesBefore;
  }

  /** The next object is the next file or directory entry, named by the long-name entries before it. */
  lemma {:induction false} ScanNames(slots: seq<Slot>, p: nat, root: nat)
    requires p <= |slots|
    ensures NamedRight(slots, p, Scan(slots[p..], PiecesBefore(slots[..p]), root), root)
    decreases |slots| - p
  {
    if p < |slots| {
      var b, pieces := slots[p].bytes, PiecesBefore(slots[..p]);
      hide Scan, MakeObject, PiecesBefore, NextPieces, KindOf, NamedRight;
      ScanStep(slots, p, pieces, root);
      if IsObject(b) {
        if MakeObject(b, pieces, root).Some? {
          NamedHere(slots, p, MakeObject(b, pieces, root).value, root);
        } else {
          NamedNothing(slots, p, root);
        }
      } else if KindOf(b).LongName? && |pieces| >= FN_STACK {
        NamedNothing(slots, p, root);
      } else {
        PiecesStep(slots, p);
        ScanNames(slots, p + 1, root);
        NamedLater(slots, p, Scan(slots[p + 1..], NextPieces(b, pieces), root), root);
      }
    }
  }

  lemma NamedNothing(slots: seq<Slot>, p: nat, root: nat)
    ensures NamedRight(slots, p, Fault, root)
  {}

  // ----- directories at the end of a cluster

  /** Entry p is no directory, or the next entry is in the same cluster or in the one with the next number; after
      the last entry, the next number is an end mark. */
  predicate SlotPlaced(slots: seq<Slot>, p: nat) {
    && p < |slots|
    && (KindOf(slots[p].bytes).DirEntry? ==>
          if p + 1 < |slots| then slots[p + 1].off != 0 || slots[p + 1].cidx == slots[p].cidx + 1
          else slots[p].cidx + 1 >= CHAIN_END)
  }

  /** From entry p on, every object that repeated scans find is placed so. */
  ghost predicate CallsRight(slots: seq<Slot>, p: nat, root: nat)
    decreases |slots| - p
  {
    && p <= |slots|
    && match Scan(slots[p..], [], root)
       case Found(_, n) =>
         0 < n && p + n <= |slots| && SlotPlaced(slots, p + n - 1) && CallsRight(slots, p + n, root)
       case _ => true
  }

  lemma {:induction false} NoObjects(slots: seq<Slot>, pieces: seq<Option<seq<Byte>>>, root: nat)
    requires Scan(slots, pieces, root).Finished?
    ensures forall k :: 0 <= k < |slots| ==> !IsObject(slots[k].bytes)
    decreases |slots|
  {
    if slots != [] { NoObjects(slots[1..], NextPieces(slots[0].bytes, pieces), root); }
  }

  /** A scan that does not fault finds every directory: all it finds are placed right exactly when all there are
      are. */
  lemma {:induction false} CallsRightIff(slots: seq<Slot>, p: nat, root: nat)
    requires p <= |slots| && Objects(slots[p..], [], root).Some?
    ensures CallsRight(slots, p, root) <==> forall q: nat :: p <= q < |slots| ==> SlotPlaced(slots, q)
    decreases |slots| - p
  {
    hide Scan, Objects, SlotPlaced, IsObject;
    var rest := slots[p..];
    var r := Scan(rest, [], root);
    ScanResumes(rest, [], root);
    if r.Found? {
      var n := r.used;
      assert rest[n..] == slots[p + n..];
      CallsRightIff(slots, p + n, root);
      NoneBefore(rest, root);
      forall q: nat | p <= q < p + n - 1 ensures SlotPlaced(slots, q) { OthersPlaced(slots, q, rest[q - p]); }
    } else {
      NoObjects(rest, [], root);
      forall q: nat | p <= q < |slots| ensures SlotPlaced(slots, q) { OthersPlaced(slots, q, rest[q - p]); }
    }
  }

  lemma OthersPlaced(slots: seq<Slot>, q: nat, slot: Slot)
    requires q < |slots| && slots[q] == slot && !IsObject(slot.bytes)
    ensures SlotPlaced(slots, q)
  {}

  lemma {:induction false} NoneBefore(slots: seq<Slot>, root: nat)
    requires Scan(slots, [], root).Found?
    ensures var n := Scan(slots, [], root).used;
            0 < n <= |slots| && forall k :: 0 <= k < n - 1 ==> !IsObject(slots[k].bytes)
  {
    ScanNames(slots, 0, root);
    assert slots[0..] == slots && slots[..0] == [];
  }
}
