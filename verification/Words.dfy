/** 64-bit words as numbers. */
module Words {
  import opened Bits
  import opened PageEntry

  function Double(x: Word, bit: bool): Word {
    (x << 1) | (if bit then 1 else 0)
  }

  function Halve(x: Word): Word {
    x >> 1
  }

  predicate Odd(x: Word) {
    x & 1 == 1
  }

  predicate InMask(x: Word, mask: Word) {
    x & !mask == 0
  }

  /** n in binary. */
  function Binary(n: nat): Word {
    if n == 0 then 0 else Double(Binary(n / 2), n % 2 == 1)
  }

  function Number(x: Word, bits: nat): nat {
    if bits == 0 then 0 else 2 * Number(Halve(x), bits - 1) + if Odd(x) then 1 else 0
  }

  /** The low k bits set. */
  function Mask(k: nat): Word {
    if k == 0 then 0 else Double(Mask(k - 1), true)
  }

  const PAGE_BITS: nat := 52

  const PAGE_MASK: Word := 0xf_ffff_ffff_ffff

  lemma DoubleInMask(x: Word, mask: Word, bit: bool)
    requires InMask(x, mask)
    ensures InMask(Double(x, bit), Double(mask, true))
  {}

  lemma InMaskTrans(x: Word, y: Word, z: Word)
    requires InMask(x, y) && InMask(y, z)
    ensures InMask(x, z)
  {}

  lemma DoubleHalve(x: Word, bit: bool)
    requires InMask(x, PAGE_MASK)
    ensures Halve(Double(x, bit)) == x && (Odd(Double(x, bit)) <==> bit)
  {}

  lemma Zero(mask: Word)
    ensures InMask(0, mask) && Double(0, false) == 0
  {}

  lemma {:induction false} BinaryInMask(n: nat, k: nat)
    requires n < Pow2(k)
    ensures InMask(Binary(n), Mask(k))
    decreases k
  {
    hide Double, InMask;
    Zero(Mask(k));
    if n != 0 {
      BinaryInMask(n / 2, k - 1);
      DoubleInMask(Binary(n / 2), Mask(k - 1), n % 2 == 1);
    }
  }

  lemma {:induction false} MaskMono(k: nat, m: nat)
    requires k <= m
    ensures InMask(Mask(k), Mask(m))
    decreases k
  {
    hide Double, InMask;
    Zero(Mask(m));
    if k != 0 {
      MaskMono(k - 1, m - 1);
      DoubleInMask(Mask(k - 1), Mask(m - 1), true);
    }
  }

  function FourMore(m: Word): Word {
    Double(Double(Double(Double(m, true), true), true), true)
  }

  lemma {:induction false} MaskFour(k: nat)
    ensures Mask(k + 4) == FourMore(Mask(k))
  {
    hide Double;
    assert Mask(k + 4) == Double(Mask(k + 3), true) && Mask(k + 3) == Double(Mask(k + 2), true);
    assert Mask(k + 2) == Double(Mask(k + 1), true) && Mask(k + 1) == Double(Mask(k), true);
  }

  lemma {:induction false} PageMask()
    ensures Mask(PAGE_BITS) == PAGE_MASK
  {
    hide Mask, FourMore;
    MaskValues();
    assert Mask(0) == 0 by { MaskZero(); }
    MaskFour(0);
    MaskFour(4);
    MaskFour(8);
    MaskFour(12);
    MaskFour(16);
    MaskFour(20);
    MaskFour(24);
    MaskFour(28);
    MaskFour(32);
    MaskFour(36);
    MaskFour(40);
    MaskFour(44);
    MaskFour(48);
  }

  lemma MaskZero()
    ensures Mask(0) == 0
  {}

  lemma MaskValues()
    ensures FourMore(0) == 0xf && FourMore(0xf) == 0xff && FourMore(0xff) == 0xfff && FourMore(0xfff) == 0xffff
    ensures FourMore(0xffff) == 0xf_ffff && FourMore(0xf_ffff) == 0xff_ffff && FourMore(0xff_ffff) == 0xfff_ffff
    ensures FourMore(0xfff_ffff) == 0xffff_ffff && FourMore(0xffff_ffff) == 0xf_ffff_ffff
    ensures FourMore(0xf_ffff_ffff) == 0xff_ffff_ffff && FourMore(0xff_ffff_ffff) == 0xfff_ffff_ffff
    ensures FourMore(0xfff_ffff_ffff) == 0xffff_ffff_ffff && FourMore(0xffff_ffff_ffff) == 0xf_ffff_ffff_ffff
  {}

  lemma {:induction false} NumberOf(n: nat, k: nat)
    requires n < Pow2(k) && k <= PAGE_BITS
    ensures Number(Binary(n), k) == n
    decreases k
  {
    hide Double, InMask, Halve, Odd;
    if k != 0 {
      NumberOf(n / 2, k - 1);
      BinaryInMask(n / 2, k - 1);
      MaskMono(k - 1, PAGE_BITS);
      PageMask();
      InMaskTrans(Binary(n / 2), Mask(k - 1), PAGE_MASK);
      DoubleHalve(Binary(n / 2), n % 2 == 1);
      Zero(0);
      assert Binary(n) == Double(Binary(n / 2), n % 2 == 1);
    }
  }

  // ----- addresses

  /** The number a word stands for. */
  function Value(x: Word): nat {
    Number(x, 64)
  }

  function PageWord(p: Word): Word {
    p >> 12
  }

  /** Number of the page that the address is in. */
  function FrameNumber(p: Word): nat {
    Number(PageWord(p), PAGE_BITS)
  }

  predicate TopClear(x: Word) {
    x >> 63 == 0
  }

  lemma SuccessorBits(x: Word)
    ensures !Odd(x) ==> Odd(x + 1) && Halve(x + 1) == Halve(x)
    ensures Odd(x) && TopClear(x) ==> !Odd(x + 1) && Halve(x + 1) == Halve(x) + 1
    ensures TopClear(Halve(x))
  {}

  lemma {:induction false} Successor(x: Word, k: nat)
    requires Number(x, k) + 1 < Pow2(k) && TopClear(x)
    ensures Number(x + 1, k) == Number(x, k) + 1
    decreases k
  {
    hide Halve, Odd, TopClear;
    SuccessorBits(x);
    if Odd(x) { Successor(Halve(x), k - 1); }
  }

  lemma NextFrameBits(p: Word)
    requires PageWord(p) != PAGE_MASK
    ensures PageWord(p + 0x1000) == PageWord(p) + 1
  {}

  lemma {:induction false} MaskNumber(k: nat)
    requires k <= PAGE_BITS
    ensures Number(Mask(k), k) == Pow2(k) - 1
  {
    hide Double, Halve, Odd, InMask;
    if k != 0 {
      MaskNumber(k - 1);
      MaskMono(k - 1, PAGE_BITS);
      PageMask();
      DoubleHalve(Mask(k - 1), true);
    }
  }

  /** The page after, unless the address is in the last one. */
  lemma {:induction false} NextFrame(p: Word)
    requires FrameNumber(p) + 1 < Pow2(PAGE_BITS)
    ensures FrameNumber(p + 0x1000) == FrameNumber(p) + 1
  {
    hide Number, Pow2, TopClear, Mask, PageWord;
    PageMask();
    MaskNumber(PAGE_BITS);
    NextFrameBits(p);
    FrameTopClear(p);
    Successor(PageWord(p), PAGE_BITS);
  }

  lemma FrameTopClear(p: Word)
    ensures TopClear(PageWord(p))
  {}

  lemma {:induction false} HalfNumber(x: Word, k: nat)
    requires k > 0
    ensures Number(Halve(x), k - 1) == Number(x, k) / 2
  {
    hide Halve, Odd;
  }

  function Quarter(x: Word): Word {
    Halve(Halve(x))
  }

  lemma {:induction false} QuarterNumber(x: Word, k: nat)
    requires k > 1
    ensures Number(Quarter(x), k - 2) == Number(x, k) / 4
  {
    hide Number, Halve;
    HalfNumber(x, k);
    HalfNumber(Halve(x), k - 1);
  }

  function Sixteenth(x: Word): Word {
    Quarter(Quarter(x))
  }

  lemma {:induction false} SixteenthNumber(x: Word, k: nat)
    requires k > 3
    ensures Number(Sixteenth(x), k - 4) == Number(x, k) / 16
  {
    hide Number, Quarter;
    QuarterNumber(x, k);
    QuarterNumber(Quarter(x), k - 2);
  }

  lemma SixteenthBits(x: Word)
    ensures Sixteenth(Sixteenth(Sixteenth(x))) == PageWord(x)
  {}

  /** The page number is the address divided by the page size. */
  lemma {:induction false} FrameOfValue(p: Word)
    ensures FrameNumber(p) == Value(p) / 0x1000
  {
    hide Number, Sixteenth, PageWord;
    SixteenthBits(p);
    SixteenthNumber(p, 64);
    SixteenthNumber(Sixteenth(p), 60);
    SixteenthNumber(Sixteenth(Sixteenth(p)), 56);
  }

  lemma {:induction false} EvenNumber(x: Word, k: nat)
    requires k > 0 && !Odd(x)
    ensures Number(x, k) == 2 * Number(Halve(x), k - 1)
  {
    hide Halve, Odd;
  }

  predicate FourClear(x: Word) {
    x & 0xf == 0
  }

  lemma FourClearBits(x: Word)
    requires FourClear(x)
    ensures !Odd(x) && !Odd(Halve(x)) && !Odd(Quarter(x)) && !Odd(Halve(Quarter(x)))
  {}

  lemma {:induction false} FourClearNumber(x: Word, k: nat)
    requires k > 3 && FourClear(x)
    ensures Number(x, k) == 16 * Number(Sixteenth(x), k - 4)
  {
    FourClearBits(x);
    hide Number, Halve, Odd, FourClear;
    EvenNumber(x, k);
    EvenNumber(Halve(x), k - 1);
    EvenNumber(Quarter(x), k - 2);
    EvenNumber(Halve(Quarter(x)), k - 3);
  }

  lemma AlignedBits(p: Word)
    ensures PageWord(Align4K(p)) == PageWord(p)
    ensures FourClear(Align4K(p)) && FourClear(Sixteenth(Align4K(p))) && FourClear(Sixteenth(Sixteenth(Align4K(p))))
  {}

  /** Rounding an address down leaves the first address of its page. */
  lemma {:induction false} AlignedValue(p: Word)
    ensures Value(Align4K(p)) == FrameNumber(p) * 0x1000 == Value(p) / 0x1000 * 0x1000
  {
    hide Number, Sixteenth, FourClear, Align4K, PageWord;
    var x := Align4K(p);
    FrameOfValue(p);
    AlignedBits(p);
    SixteenthBits(x);
    FourClearNumber(x, 64);
    FourClearNumber(Sixteenth(x), 60);
    FourClearNumber(Sixteenth(Sixteenth(x)), 56);
  }

  /** The address of a page. */
  function AddressAt(page: Word): Word {
    page << 12
  }

  lemma ShiftedBits(x: Word)
    requires InMask(x, PAGE_MASK)
    ensures PageWord(AddressAt(x)) == x && Align4K(AddressAt(x)) == AddressAt(x)
  {}

  lemma {:induction false} AddressValue(n: nat)
    requires n < Pow2(PAGE_BITS)
    ensures Value(AddressAt(Binary(n))) == n * 0x1000 && Align4K(AddressAt(Binary(n))) == AddressAt(Binary(n))
  {
    hide Number, Align4K, InMask, Binary, Pow2, Value, AddressAt, PageWord;
    PageMask();
    BinaryInMask(n, PAGE_BITS);
    ShiftedBits(Binary(n));
    AlignedValue(AddressAt(Binary(n)));
    NumberOf(n, PAGE_BITS);
  }
}
