/** Directory entries as the FAT specification lays them out: the 8.3 entry of a file or a directory, and the
    long-name entries before it, against the objects that the scan finds. */
module DirFormat {
  import opened Collections
  import opened CacheState
  import opened FatLayout
  import opened LittleEndian
  import opened Directory

  // ----- attributes

  function Bit(b: bool, value: nat): nat {
    if b then value else 0
  }

  /** The two bits of DIR_Attr that mean nothing. */
  type Reserved = x: int | 0 <= x < 4

  /** DIR_Attr: read only, hidden, system, volume, directory, archive. */
  datatype Attributes = Attributes(ro: bool, hidden: bool, system: bool, volume: bool, dir: bool, archive: bool,
                                   reserved: Reserved)

  function Flags(a: Attributes): (f: nat)
    ensures f < 0x40
  {
    Bit(a.ro, 0x01) + Bit(a.hidden, 0x02) + Bit(a.system, 0x04) + Bit(a.volume, 0x08) + Bit(a.dir, 0x10)
    + Bit(a.archive, 0x20)
  }

  function AttrByte(a: Attributes): (b: Byte) {
    Flags(a) + 0x40 * a.reserved
  }

  /** Only an entry with the first four attributes and no other holds a piece of a long name. */
  predicate LongAttributes(a: Attributes) {
    a.ro && a.hidden && a.system && a.volume && !a.dir && !a.archive
  }

  lemma LowSix(a: Attributes)
    ensures AttrByte(a) % 0x40 == 0x0f <==> LongAttributes(a)
  {
    assert AttrByte(a) == Flags(a) + 0x40 * a.reserved && AttrByte(a) % 0x40 == Flags(a);
  }

  lemma MiddleTwo(a: Attributes)
    ensures AttrByte(a) / 8 % 4 == Bit(a.volume, 1) + Bit(a.dir, 2)
  {
    var low, high := Bit(a.ro, 1) + Bit(a.hidden, 2) + Bit(a.system, 4), Bit(a.archive, 1) + 2 * a.reserved;
    Digits(AttrByte(a), low, Bit(a.volume, 1) + Bit(a.dir, 2), high);
  }

  lemma Digits(x: nat, low: nat, mid: nat, high: nat)
    requires x == low + 8 * mid + 32 * high && low < 8 && mid < 4
    ensures x / 8 % 4 == mid
  {
    assert x / 8 == mid + 4 * high;
  }

  /** An entry is free, or what its attributes say. */
  lemma KindIs(b: seq<Byte>, a: Attributes)
    requires |b| == 32 && b[11] == AttrByte(a)
    ensures KindOf(b) == if b[0] == 0 || b[0] == 0xe5 then FreeEntry
                         else if LongAttributes(a) then LongName
                         else if a.volume then OtherEntry
                         else if a.dir then DirEntry
                         else FileEntry
  {
    hide AttrByte;
    LowSix(a);
    MiddleTwo(a);
  }

  // ----- long-name entries

  /** Two-byte characters, one after the other. */
  function Chars(units: seq<nat>): (b: seq<Byte>)
    ensures |b| == 2 * |units|
  {
    if units == [] then [] else BytesOf(units[0], 2) + Chars(units[1..])
  }

  /** LDIR_Ord, LDIR_Name1, LDIR_Attr, LDIR_Type, LDIR_Chksum, LDIR_Name2, LDIR_FstClusLO, LDIR_Name3. */
  function LongEntry(ord: Byte, sum: Byte, units: seq<nat>): (b: seq<Byte>)
    requires |units| == 13
    ensures |b| == 32
  {
    [ord] + Chars(units[..5]) + [0x0f, 0, sum] + Chars(units[5..11]) + [0, 0] + Chars(units[11..])
  }

  /** A piece of a name: its characters, a terminator unless it is full, and 0xffff in what is left. */
  function Padded(piece: seq<Byte>): (units: seq<nat>)
    ensures |units| == 13
  {
    seq(13, i requires 0 <= i => if i < |piece| then piece[i] as nat else if i == |piece| then 0 else 0xffff)
  }

  lemma {:induction false} CharsAt(units: seq<nat>, k: nat)
    requires k < |units|
    ensures Laid(Chars(units), 2 * k, BytesOf(units[k], 2))
  {
    hide BytesOf;
    var rest := Chars(units[1..]);
    if k > 0 {
      CharsAt(units[1..], k - 1);
      LaidIn(Chars(units), 2, rest, 2 * (k - 1), BytesOf(units[k], 2));
    }
  }

  /** The reader finds the thirteen characters. */
  lemma {:induction false} ReadsUnits(ord: Byte, sum: Byte, units: seq<nat>)
    requires |units| == 13 && forall i :: 0 <= i < 13 ==> units[i] < 0x1_0000
    ensures Units(LongEntry(ord, sum, units)) == units
  {
    hide BytesOf, Chars, Laid, LongEntry, Le16;
    var b := LongEntry(ord, sum, units);
    Parts(ord, sum, units);
    Unit(b, 1, units[..5], 0);
    Unit(b, 1, units[..5], 1);
    Unit(b, 1, units[..5], 2);
    Unit(b, 1, units[..5], 3);
    Unit(b, 1, units[..5], 4);
    Unit(b, 14, units[5..11], 0);
    Unit(b, 14, units[5..11], 1);
    Unit(b, 14, units[5..11], 2);
    Unit(b, 14, units[5..11], 3);
    Unit(b, 14, units[5..11], 4);
    Unit(b, 14, units[5..11], 5);
    Unit(b, 28, units[11..], 0);
    Unit(b, 28, units[11..], 1);
  }

  lemma Parts(ord: Byte, sum: Byte, units: seq<nat>)
    requires |units| == 13
    ensures var b := LongEntry(ord, sum, units);
            && Laid(b, 1, Chars(units[..5])) && Laid(b, 14, Chars(units[5..11])) && Laid(b, 28, Chars(units[11..]))
            && b[0] == ord && b[11] == 0x0f
  {
    hide Chars;
  }

  lemma {:induction false} Unit(b: seq<Byte>, at: nat, units: seq<nat>, k: nat)
    requires Laid(b, at, Chars(units)) && k < |units| && units[k] < 0x1_0000
    ensures Le16(b, at + 2 * k) == units[k]
  {
    hide BytesOf, Chars, Laid, Le16;
    var all, one, p := Chars(units), BytesOf(units[k], 2), 2 * k;
    CharsAt(units, k);
    LaidIn(b, at, all, p, one);
    Reads16Whole(b, at + p, units[k]);
  }

  predicate Printable(name: seq<Byte>) {
    forall i :: 0 <= i < |name| ==> name[i] != 0
  }

  /** The C string that is copied from the characters i on. */
  lemma {:induction false} CopiesFrom(piece: seq<Byte>, i: nat)
    requires i <= |piece| <= 13 && Printable(piece)
    ensures CString(CopyLong(Padded(piece)[i..])) == Some(piece[i..])
    decreases 13 - i
  {
    var units := Padded(piece)[i..];
    if i < 13 {
      assert units[0] == Padded(piece)[i] && units[1..] == Padded(piece)[i + 1..];
      if i < |piece| {
        CopiesFrom(piece, i + 1);
        CopyChar(units, piece[i], piece[i + 1..]);
        assert [piece[i]] + piece[i + 1..] == piece[i..];
      } else {
        CopyEnd(units);
        assert piece[i..] == [];
      }
    } else {
      CopyFull(units);
      assert piece[i..] == [];
    }
  }

  lemma {:induction false} CopyChar(units: seq<nat>, c: Byte, rest: seq<Byte>)
    requires units != [] && units[0] == c as nat && c != 0 && CString(CopyLong(units[1..])) == Some(rest)
    ensures CString(CopyLong(units)) == Some([c] + rest)
  {
    var copy := CopyLong(units[1..]);
    assert ([c] + copy)[1..] == copy;
  }

  lemma {:induction false} CopyEnd(units: seq<nat>)
    requires units != [] && units[0] == 0
    ensures CString(CopyLong(units)) == Some([])
  {}

  lemma {:induction false} CopyFull(units: seq<nat>)
    requires units == []
    ensures CString(CopyLong(units)) == Some([])
  {}

  lemma {:induction false} ReadsPiece(ord: Byte, sum: Byte, piece: seq<Byte>)
    requires |piece| <= 13 && Printable(piece)
    ensures Piece(LongEntry(ord, sum, Padded(piece))) == Some(piece)
  {
    hide Units, LongEntry, CString, CopyLong;
    ReadsUnits(ord, sum, Padded(piece));
    CopiesFrom(piece, 0);
    assert Padded(piece)[0..] == Padded(piece) && piece[0..] == piece;
  }

  /** A piece that is padded without a terminator, which the specification does not allow, is read past its end. */
  lemma {:induction false} Unterminated(ord: Byte, sum: Byte, units: seq<nat>, k: nat)
    requires |units| == 13 && k < 13 && units[k] == 0xffff && forall i :: 0 <= i < k ==> 0 < units[i] < 0x100
    requires forall i :: 0 <= i < 13 ==> units[i] < 0x1_0000
    ensures Piece(LongEntry(ord, sum, units)) == None
  {
    hide Units, LongEntry, CString, CopyLong;
    ReadsUnits(ord, sum, units);
    NeverEnds(units, k);
  }

  lemma {:induction false} NeverEnds(units: seq<nat>, k: nat)
    requires k < |units| && units[k] == 0xffff && forall i :: 0 <= i < k ==> 0 < units[i] < 0x100
    ensures CString(CopyLong(units)) == None
    decreases k
  {
    if k > 0 {
      NeverEnds(units[1..], k - 1);
      assert CopyLong(units) == [units[0] % 0x100] + CopyLong(units[1..]) && units[0] % 0x100 == units[0];
      assert CopyLong(units)[1..] == CopyLong(units[1..]);
    }
  }

  // ----- names

  /** How many entries a name takes. */
  function Pieces(name: seq<Byte>): nat {
    (|name| + 12) / 13
  }

  /** The characters of entry j, counted from 1. */
  function Cut(name: seq<Byte>, j: nat): seq<Byte>
    requires 0 < j <= Pieces(name)
  {
    name[13 * (j - 1)..Min(13 * j, |name|)]
  }

  /** The order number; the last piece, which comes first in the directory, is marked. */
  function Order(j: nat, last: bool): (ord: Byte)
    requires 0 < j <= 20
    ensures ord != 0 && ord != 0xe5
  {
    j + Bit(last, 0x40)
  }

  predicate NameOk(name: seq<Byte>) {
    |name| <= 255 && Printable(name)
  }

  /** The entries of pieces j to 1, in that order. */
  function LongEntries(name: seq<Byte>, sum: Byte, j: nat): (entries: seq<seq<Byte>>)
    requires NameOk(name) && j <= Pieces(name)
    ensures |entries| == j
  {
    if j == 0 then []
    else [LongEntry(Order(j, j == Pieces(name)), sum, Padded(Cut(name, j)))] + LongEntries(name, sum, j - 1)
  }

  // ----- the 8.3 entry

  function Spaced(s: seq<Byte>, n: nat): (b: seq<Byte>)
    requires |s| <= n
    ensures |b| == n
  {
    s + seq(n - |s|, _ => 0x20)
  }

  /** DIR_Name in its two parts, DIR_Attr, DIR_NTRes to DIR_LstAccDate, DIR_FstClusHI and LO, DIR_WrtTime and
      DIR_WrtDate, DIR_FileSize. */
  datatype Short = Short(base: seq<Byte>, ext: seq<Byte>, attr: Attributes, created: seq<Byte>, cluster: nat,
                         written: seq<Byte>, size: nat)

  predicate ShortOk(e: Short) {
    && 1 <= |e.base| <= 8 && |e.ext| <= 3 && Printable(e.base) && Printable(e.ext)
    && 0x20 !in e.base && 0x20 !in e.ext && e.base[0] != 0xe5
    && !e.attr.volume && |e.created| == 8 && |e.written| == 4 && e.cluster < WORD && e.size < WORD
  }

  function ShortEntry(e: Short): (b: seq<Byte>)
    requires ShortOk(e)
    ensures |b| == 32
  {
    Spaced(e.base, 8) + Spaced(e.ext, 3) + [AttrByte(e.attr)] + e.created + BytesOf(e.cluster / 0x1_0000, 2)
    + e.written + BytesOf(e.cluster % 0x1_0000, 2) + BytesOf(e.size, 4)
  }

  lemma ShortParts(e: Short)
    requires ShortOk(e)
    ensures var b := ShortEntry(e);
            && b[..8] == Spaced(e.base, 8) && b[8..11] == Spaced(e.ext, 3) && b[11] == AttrByte(e.attr)
            && Laid(b, 20, BytesOf(e.cluster / 0x1_0000, 2)) && Laid(b, 26, BytesOf(e.cluster % 0x1_0000, 2))
            && Laid(b, 28, BytesOf(e.size, 4)) && b[0] == e.base[0]
  {
    hide BytesOf, Spaced, AttrByte;
    assert ShortEntry(e)[..8][0] == e.base[0] by { SpacedFirst(e.base, 8); }
  }

  lemma SpacedFirst(s: seq<Byte>, n: nat)
    requires 0 < |s| <= n
    ensures Spaced(s, n)[0] == s[0]
  {}

  /** Kind, cluster and size are what the entry was made of. */
  lemma {:induction false} ReadsShort(e: Short)
    requires ShortOk(e)
    ensures var b := ShortEntry(e);
            && KindOf(b) == (if e.attr.dir then DirEntry else FileEntry)
            && FirstCluster(b) == e.cluster && Le32(b, 28) == e.size
  {
    hide BytesOf, Spaced, AttrByte, ShortEntry, KindOf, Laid, Le16, Le32;
    var b := ShortEntry(e);
    ShortParts(e);
    assert b[0] != 0;
    KindIs(b, e.attr);
    Reads16Whole(b, 20, e.cluster / 0x1_0000);
    Reads16Whole(b, 26, e.cluster % 0x1_0000);
    Reads32Whole(b, 28, e.size);
  }

  /** BASE.EXT, or BASE alone. */
  function Joined(e: Short): seq<Byte> {
    e.base + (if e.ext == [] then [] else [0x2e] + e.ext) + [0]
  }

  lemma {:induction false} UpToPadding(s: seq<Byte>, n: nat)
    requires |s| <= n && 0x20 !in s
    ensures UpToSpace(Spaced(s, n)) == s
    decreases |s|
  {
    var b := Spaced(s, n);
    if s == [] {
      assert n > 0 ==> b[0] == 0x20;
    } else {
      UpToPadding(s[1..], n - 1);
      assert b[1..] == Spaced(s[1..], n - 1);
    }
  }

  /** fat32_copy_name_short looks at the sixth character of the name: the short name is right exactly when there is
      one just in case there is an extension. */
  lemma {:induction false} ShortRightIff(e: Short)
    requires ShortOk(e)
    ensures ShortName(ShortEntry(e)) == Joined(e) <==> (|e.base| > 5 <==> e.ext != [])
  {
    hide UpToSpace, Spaced;
    var b := ShortEntry(e);
    ShortParts(e);
    UpToPadding(e.base, 8);
    UpToPadding(e.ext, 3);
    assert b[5] == b[..8][5];
    SixthIs(e.base);
    if |e.base| > 5 {
      assert |ShortName(b)| == |e.base| + 2 + |e.ext|;
    } else {
      assert |ShortName(b)| == |e.base| + 1;
    }
  }

  /** A.TXT is named A. */
  lemma {:induction false} ExtensionLost(e: Short)
    requires ShortOk(e) && e.base == [0x41] && e.ext == [0x54, 0x58, 0x54]
    ensures ShortName(ShortEntry(e)) == [0x41, 0] && Joined(e) == [0x41, 0x2e, 0x54, 0x58, 0x54, 0]
  {
    hide UpToSpace, Spaced;
    ShortParts(e);
    UpToPadding(e.base, 8);
    assert ShortEntry(e)[5] == ShortEntry(e)[..8][5];
    SixthIs(e.base);
  }

  lemma SixthIs(base: seq<Byte>)
    requires |base| <= 8 && 0x20 !in base
    ensures Spaced(base, 8)[5] == 0x20 <==> |base| <= 5
  {}

  // ----- what the scan finds

  /** The long-name entries of pieces j to 1, and then the 8.3 entry. */
  ghost predicate Entered(slots: seq<Slot>, name: seq<Byte>, sum: Byte, e: Short, j: nat) {
    && NameOk(name) && ShortOk(e) && j <= Pieces(name) && j < |slots|
    && (forall i :: 0 <= i < j ==> slots[i].bytes == LongEntries(name, sum, j)[i])
    && slots[j].bytes == ShortEntry(e)
  }

  /** What the entries describe. */
  function Described(name: seq<Byte>, e: Short): Object
    requires ShortOk(e)
  {
    var short := ShortName(ShortEntry(e));
    if e.attr.dir then DirObject(e.cluster, Long(name), short) else FileObject(e.cluster, e.size, Long(name), short)
  }

  function Rest(name: seq<Byte>, j: nat): seq<Byte> {
    if 13 * j <= |name| then name[13 * j..] else []
  }

  lemma EnteredFacts(slots: seq<Slot>, name: seq<Byte>, sum: Byte, e: Short, j: nat)
    requires Entered(slots, name, sum, e, j)
    ensures slots != [] && Printable(name) && j <= Pieces(name) <= 20 && ShortOk(e)
  {}

  lemma EnteredStep(slots: seq<Slot>, name: seq<Byte>, sum: Byte, e: Short, j: nat)
    requires j > 0 && Entered(slots, name, sum, e, j)
    ensures slots[0].bytes == LongEntry(Order(j, j == Pieces(name)), sum, Padded(Cut(name, j)))
    ensures Entered(slots[1..], name, sum, e, j - 1)
  {
    hide LongEntry, Padded, ShortEntry;
    var all, rest := LongEntries(name, sum, j), LongEntries(name, sum, j - 1);
    assert forall i :: 0 <= i < j - 1 ==> all[i + 1] == rest[i];
    assert slots[0].bytes == all[0];
    forall i | 0 <= i < j - 1 ensures slots[1..][i].bytes == rest[i] { assert slots[i + 1].bytes == all[i + 1]; }
  }

  lemma {:induction false} LongKind(ord: Byte, sum: Byte, units: seq<nat>)
    requires |units| == 13 && ord != 0 && ord != 0xe5
    ensures KindOf(LongEntry(ord, sum, units)) == LongName
  {
    hide LongEntry, Chars, KindOf;
    Parts(ord, sum, units);
    KindIs(LongEntry(ord, sum, units), Attributes(true, true, true, true, false, false, 0));
  }

  lemma CutPrintable(name: seq<Byte>, j: nat)
    requires Printable(name) && 0 < j <= Pieces(name)
    ensures |Cut(name, j)| <= 13 && Printable(Cut(name, j)) && Rest(name, j - 1) == Cut(name, j) + Rest(name, j)
  {}

  lemma {:induction false} ScansPieces(slots: seq<Slot>, name: seq<Byte>, sum: Byte, e: Short, j: nat,
                                       pieces: seq<Option<seq<Byte>>>, root: nat)
    requires Entered(slots, name, sum, e, j) && |pieces| == Pieces(name) - j && |pieces| <= 10
    requires JoinPieces(pieces) == Some(Rest(name, j)) && (name == [] ==> !e.attr.dir)
    ensures Scan(slots, pieces, root) == if |name| > 130 then Fault else Found(Described(name, e), j + 1)
    decreases j
  {
    hide Entered, LongEntry, Padded, ShortEntry, KindOf, Piece, ShortName, Cut, Rest;
    EnteredFacts(slots, name, sum, e, j);
    var b := slots[0].bytes;
    if j == 0 {
      LastEntered(slots, name, sum, e);
      ReadsShort(e);
    } else {
      EnteredStep(slots, name, sum, e, j);
      var ord, piece := Order(j, j == Pieces(name)), Cut(name, j);
      LongKind(ord, sum, Padded(piece));
      if |pieces| < 10 {
        CutPrintable(name, j);
        ReadsPiece(ord, sum, piece);
        var next := [Piece(b)] + pieces;
        assert next[1..] == pieces;
        ScansPieces(slots[1..], name, sum, e, j - 1, next, root);
      }
    }
  }

  lemma LastEntered(slots: seq<Slot>, name: seq<Byte>, sum: Byte, e: Short)
    requires Entered(slots, name, sum, e, 0)
    ensures slots != [] && ShortOk(e) && slots[0].bytes == ShortEntry(e) && Rest(name, 0) == name
  {}

  /** A file or directory with a long name, as the specification stores it: the next object has that name, and the
      kind, cluster and size of its entry. More than 130 characters are more than the name stack holds. */
  lemma {:induction false} LongNameFound(slots: seq<Slot>, name: seq<Byte>, sum: Byte, e: Short, root: nat)
    requires Entered(slots, name, sum, e, Pieces(name)) && (name == [] ==> !e.attr.dir)
    ensures Scan(slots, [], root)
            == if |name| > 130 then Fault else Found(Described(name, e), Pieces(name) + 1)
  {
    hide Entered, Scan;
    assert Rest(name, Pieces(name)) == [];
    ScansPieces(slots, name, sum, e, Pieces(name), [], root);
  }

  const DOTS: seq<Byte> := [0x2e, 0x2e]

  /** A directory without a long name: the two that every directory has are named "." and "..", and the parent at
      cluster 0 is the root directory. */
  lemma {:induction false} PlainDirFound(slots: seq<Slot>, e: Short, root: nat)
    requires slots != [] && ShortOk(e) && e.attr.dir && slots[0].bytes == ShortEntry(e)
    requires e.base[0] == 0x2e ==> e.ext == [] && e.base <= DOTS
    ensures var short := ShortName(ShortEntry(e));
            Scan(slots, [], root)
            == Found(if e.base == DOTS then DirObject(if e.cluster == 0 then root else e.cluster, Long(e.base), short)
                     else if e.base[0] == 0x2e then DirObject(e.cluster, Long(e.base), short)
                     else DirObject(e.cluster, FromShort, short), 1)
  {
    hide ShortEntry, KindOf, UpToSpace, Spaced;
    ReadsShort(e);
    ShortParts(e);
    UpToPadding(e.base, 8);
    assert JoinPieces([]) == Some([]);
    assert ShortEntry(e)[5] == ShortEntry(e)[..8][5];
    SixthIs(e.base);
    var short := ShortName(ShortEntry(e));
    assert short[0] == e.base[0];
    if e.base[0] == 0x2e {
      DotsAre(e.base);
      assert short == e.base + [0];
    }
  }

  lemma DotsAre(base: seq<Byte>)
    requires base != [] && base <= DOTS
    ensures base == [0x2e] || base == DOTS
  {
    if |base| == 1 { assert base[0] == DOTS[0]; }
  }
}
