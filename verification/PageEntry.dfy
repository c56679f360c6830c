/** kernel/pg.h and the address macros of kernel/pte.h, on 64-bit words. */
module PageEntry {

  type Word = bv64

  const PTE_NON_LEAF: Word := 1 // PTE_V_SET alone

  // ALIGN_4K
  function Align4K(a: Word): Word {
    a & !0xfff
  }

  // PTE_NADDR
  function Naddr(addr: Word): Word {
    Align4K(addr) >> 2
  }

  // PTE_EXTRACT_NADDR
  function ExtractNaddr(pte: Word): Word {
    (pte << 2) & !0xfff
  }

  // PTE_EXTRACT_XWRV
  function ExtractXwrv(pte: Word): Word {
    pte & 0xf
  }

  // PTE_EXTRACT_FLAGS
  function ExtractFlags(pte: Word): Word {
    pte & 0x3ff
  }

  predicate IsInvalid(pte: Word) {
    ExtractXwrv(pte) == 0
  }

  predicate IsTable(pte: Word) {
    ExtractXwrv(pte) == PTE_NON_LEAF
  }

  /** V and at least one of R, W, X. */
  predicate IsLeaf(pte: Word) {
    pte & 1 == 1 && pte & 0xe != 0
  }

  /** Leaf flags a caller may pass: within the ten flag bits, V and at least one of R, W, X. */
  predicate LeafFlags(flags: Word) {
    flags <= 0x3ff && IsLeaf(flags)
  }

  function LeafEntry(pa: Word, flags: Word): Word {
    Naddr(pa) | flags
  }

  function TableEntry(addr: Word): Word {
    Naddr(addr) | PTE_NON_LEAF
  }

  /** The round trip of the entry encoding: address and flags come back, for every address. */
  lemma EntryRoundTrip(addr: Word, flags: Word)
    requires flags <= 0x3ff
    ensures ExtractNaddr(Naddr(addr) | flags) == Align4K(addr)
    ensures ExtractFlags(Naddr(addr) | flags) == flags
    ensures ExtractXwrv(Naddr(addr) | flags) == flags & 0xf
  {}

  /** A flag outside the ten low bits would reach the address field. */
  lemma WideFlagsCorrupt(addr: Word, flags: Word)
    ensures ExtractNaddr(Naddr(addr) | flags) == Align4K(addr) && ExtractFlags(Naddr(addr) | flags) == flags
            <==> flags <= 0x3ff
  {}

  lemma LeafEntryIsLeaf(pa: Word, flags: Word)
    requires LeafFlags(flags)
    ensures IsLeaf(LeafEntry(pa, flags)) && !IsTable(LeafEntry(pa, flags)) && !IsInvalid(LeafEntry(pa, flags))
    ensures ExtractNaddr(LeafEntry(pa, flags)) == Align4K(pa) && ExtractFlags(LeafEntry(pa, flags)) == flags
  {}

  lemma TableEntryIsTable(addr: Word)
    requires Align4K(addr) == addr
    ensures IsTable(TableEntry(addr)) && ExtractNaddr(TableEntry(addr)) == addr
  {
    EntryRoundTrip(addr, PTE_NON_LEAF);
  }

  lemma Kinds(pte: Word)
    ensures IsLeaf(pte) ==> !IsTable(pte) && !IsInvalid(pte)
    ensures IsTable(pte) ==> !IsInvalid(pte)
    ensures IsInvalid(0) && ExtractNaddr(0) == 0 && ExtractFlags(0) == 0
  {}

  // ----- page numbers; virtual addresses are natural numbers, shifts and masks are div and mod

  // VA_VPN2
  function Vpn2(va: nat): (i: nat)
    ensures i < 512
  {
    va / 0x4000_0000 % 512
  }

  // VA_VPN1
  function Vpn1(va: nat): (i: nat)
    ensures i < 512
  {
    va / 0x20_0000 % 512
  }

  // VA_VPN0
  function Vpn0(va: nat): (i: nat)
    ensures i < 512
  {
    va / 0x1000 % 512
  }

  // VA_VPN
  function PageNumber(va: nat): nat {
    va / 0x1000 % 0x800_0000
  }

  lemma PageNumberParts(va: nat)
    ensures PageNumber(va) == Vpn2(va) * 0x4_0000 + Vpn1(va) * 0x200 + Vpn0(va)
  {
    var p := va / 0x1000;
    DivShift(va, p, 0x1000);
    NineBits(p);
  }

  lemma DivShift(va: nat, p: nat, unit: nat)
    requires unit == 0x1000 && p == va / unit
    ensures va / 0x20_0000 == p / 0x200 && va / 0x4000_0000 == p / 0x4_0000
  {}

  lemma NineBits(p: nat)
    ensures p % 0x800_0000 == p / 0x4_0000 % 0x200 * 0x4_0000 + p / 0x200 % 0x200 * 0x200 + p % 0x200
  {
    var q := p / 0x200;
    var r := q / 0x200;
    var a, b, c := p % 0x200, q % 0x200, r % 0x200;
    assert p == 0x200 * q + a && q == 0x200 * r + b && r == 0x200 * (r / 0x200) + c;
    Remainder(p, 0x4_0000, r, 0x200 * b + a);
    Remainder(p, 0x800_0000, r / 0x200, 0x4_0000 * c + 0x200 * b + a);
  }

  lemma Remainder(p: nat, m: nat, q: nat, r: nat)
    requires m == 0x4_0000 || m == 0x800_0000
    requires p == m * q + r && r < m
    ensures p / m == q && p % m == r
  {}

  /** The three nine-bit indices are the digits of the 27-bit page number. */
  lemma IndicesArePageNumber(v: nat, w: nat)
    ensures v / 0x1000 % 0x800_0000 == Vpn2(v) * 0x4_0000 + Vpn1(v) * 0x200 + Vpn0(v)
    ensures Vpn2(v) == Vpn2(w) && Vpn1(v) == Vpn1(w) && Vpn0(v) == Vpn0(w) <==> PageNumber(v) == PageNumber(w)
  {
    PageNumberParts(v);
    PageNumberParts(w);
  }

  // ----- the Sv39 view of an entry (section 4.4 of the RISC-V privileged specification)

  /** The 44-bit physical page number field, bits 53 to 10, as an address. */
  function PpnAddress(pte: Word): Word {
    ((pte >> 10) & 0xfff_ffff_ffff) << 12
  }

  /** The kernel and the hardware read the same address exactly when bits 61 to 54 are clear. */
  lemma SameAddressIff(pte: Word)
    ensures PpnAddress(pte) == ExtractNaddr(pte) <==> (pte >> 54) & 0xff == 0
  {}

  /** Entries made from 56-bit physical addresses keep those bits clear. */
  lemma PhysicalFits(addr: Word, flags: Word)
    requires flags <= 0x3ff && addr >> 56 == 0
    ensures PpnAddress(Naddr(addr) | flags) == ExtractNaddr(Naddr(addr) | flags)
  {
    assert ((Naddr(addr) | flags) >> 54) & 0xff == 0;
    SameAddressIff(Naddr(addr) | flags);
  }
}
