/** The program header of an ELF-64 file as the System V ABI, chapter 5, lays it out, against what the loader reads. */
module ElfFormat {
  import opened CacheState
  import opened FatLayout
  import opened LittleEndian
  import Loader

  const XWORDS: nat := 0x1_0000_0000_0000_0000 // values of 64 bits

  datatype Fields = Fields(ptype: nat, flags: nat, offset: nat, vaddr: nat, paddr: nat, filesz: nat, memsz: nat,
                           align: nat)

  predicate InRange(h: Fields) {
    && h.ptype < WORD && h.flags < WORD && h.offset < XWORDS && h.vaddr < XWORDS && h.paddr < XWORDS
    && h.filesz < XWORDS && h.memsz < XWORDS && h.align < XWORDS
  }

  /** The 56 bytes of a program header, field after field. */
  function ProgramHeader(h: Fields): (b: seq<Byte>)
    ensures |b| == 56
  {
    BytesOf(h.ptype, 4) + BytesOf(h.flags, 4) + BytesOf(h.offset, 8) + BytesOf(h.vaddr, 8) + BytesOf(h.paddr, 8)
    + BytesOf(h.filesz, 8) + BytesOf(h.memsz, 8) + BytesOf(h.align, 8)
  }

  lemma {:induction false} BytesStep(v: nat, n: nat)
    ensures BytesOf(v, n + 1) == [v % 0x100] + BytesOf(v / 0x100, n) && BytesOf(v, 0) == []
  {}

  lemma {:induction false} FourFirst(v: nat, a: nat, b: nat, c: nat, e: nat, n: nat)
    requires a == v / 0x100 && b == a / 0x100 && c == b / 0x100 && e == c / 0x100
    ensures BytesOf(v, n + 4) == [v % 0x100, a % 0x100, b % 0x100, c % 0x100] + BytesOf(e, n)
  {
    hide BytesOf;
    BytesStep(v, n + 3);
    BytesStep(a, n + 2);
    BytesStep(b, n + 1);
    BytesStep(c, n);
  }

  lemma FourTimes(v: nat, a: nat, b: nat, c: nat)
    requires a == v / 0x100 && b == a / 0x100 && c == b / 0x100
    ensures c / 0x100 == v / WORD
  {}

  lemma {:induction false} Halves(v: nat)
    ensures BytesOf(v, 8) == BytesOf(v, 4) + BytesOf(v / WORD, 4)
  {
    hide BytesOf;
    var a := v / 0x100;
    var b := a / 0x100;
    var c := b / 0x100;
    FourTimes(v, a, b, c);
    FourFirst(v, a, b, c, c / 0x100, 4);
    FourFirst(v, a, b, c, c / 0x100, 0);
    BytesStep(c / 0x100, 0);
  }

  lemma LaidPrefix(s: seq<Byte>, i: nat, b: seq<Byte>, low: seq<Byte>, high: seq<Byte>)
    requires Laid(s, i, b) && b == low + high
    ensures Laid(s, i, low) && Laid(s, i + |low|, high)
  {
    assert b[..|low|] == low && b[|low|..] == high;
    LaidIn(s, i, b, 0, low);
    LaidIn(s, i, b, |low|, high);
  }

  /** The reader of eight bytes gives the number back. */
  lemma {:induction false} Reads64(s: seq<Byte>, i: nat, v: nat)
    requires Laid(s, i, BytesOf(v, 8)) && v < XWORDS
    ensures Loader.Le64(s, i) == v
  {
    hide BytesOf, Laid, Le32;
    Halves(v);
    LaidPrefix(s, i, BytesOf(v, 8), BytesOf(v, 4), BytesOf(v / WORD, 4));
    Reads32(s, i, v);
    Reads32Whole(s, i + 4, v / WORD);
  }

  /** A program header laid out in a file is read field by field: each of the seven fields that the loader uses has
      its value, and p_paddr goes nowhere. PT_LOAD is 1. */
  lemma {:induction false} ReadsHeader(file: seq<Byte>, phoff: nat, i: nat, h: Fields)
    requires InRange(h) && Laid(file, phoff + 56 * i, ProgramHeader(h))
    ensures Loader.Header(file, phoff, i)
            == Loader.Phdr(h.ptype, h.flags, h.offset, h.vaddr, h.filesz, h.memsz, h.align)
    ensures Loader.Loadable(Loader.Header(file, phoff, i)) <==> h.ptype == 1
  {
    hide BytesOf, Laid, Le32, Loader.Le64;
    var at := phoff + 56 * i;
    var b := ProgramHeader(h);
    Field(file, at, b, 0, BytesOf(h.ptype, 4));
    Field(file, at, b, 4, BytesOf(h.flags, 4));
    Field(file, at, b, 8, BytesOf(h.offset, 8));
    Field(file, at, b, 16, BytesOf(h.vaddr, 8));
    Field(file, at, b, 32, BytesOf(h.filesz, 8));
    Field(file, at, b, 40, BytesOf(h.memsz, 8));
    Field(file, at, b, 48, BytesOf(h.align, 8));
    Reads32Whole(file, at, h.ptype);
    Reads32Whole(file, at + 4, h.flags);
    Reads64(file, at + 8, h.offset);
    Reads64(file, at + 16, h.vaddr);
    Reads64(file, at + 32, h.filesz);
    Reads64(file, at + 40, h.memsz);
    Reads64(file, at + 48, h.align);
  }

  lemma Field(file: seq<Byte>, at: nat, b: seq<Byte>, j: nat, c: seq<Byte>)
    requires Laid(file, at, b) && j + |c| <= |b| && b[j..j + |c|] == c
    ensures Laid(file, at + j, c)
  {
    LaidIn(file, at, b, j, c);
  }
}
