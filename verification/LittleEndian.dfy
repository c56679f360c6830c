/** Numbers as bytes, least significant byte first: what on-disk formats hold, and what the readers get from them. */
module LittleEndian {
  import opened CacheState
  import opened FatLayout

  /** The n low bytes of v. */
  function BytesOf(v: nat, n: nat): (b: seq<Byte>)
    ensures |b| == n
  {
    if n == 0 then [] else [v % 0x100] + BytesOf(v / 0x100, n - 1)
  }

  /** Byte i and the following ones are those of b. */
  predicate Laid(s: seq<Byte>, i: nat, b: seq<Byte>) {
    i + |b| <= |s| && s[i..i + |b|] == b
  }

  lemma LaidAt(s: seq<Byte>, i: nat, b: seq<Byte>, k: nat)
    requires Laid(s, i, b) && k < |b|
    ensures i + k < |s| && s[i + k] == b[k]
  {
    assert s[i..i + |b|][k] == s[i + k];
  }

  lemma LaidIn(s: seq<Byte>, i: nat, b: seq<Byte>, j: nat, c: seq<Byte>)
    requires Laid(s, i, b) && Laid(b, j, c)
    ensures Laid(s, i + j, c)
  {
    forall k | 0 <= k < |c| ensures s[i + j..i + j + |c|][k] == c[k] {
      assert b[j..j + |c|][k] == b[j + k] && s[i..i + |b|][j + k] == s[i + (j + k)];
    }
  }

  lemma {:induction false} TwoBytes(v: nat)
    ensures var b := BytesOf(v, 2); b[0] as int + 0x100 * b[1] as int == v % 0x1_0000
  {
    var b, one := BytesOf(v, 2), BytesOf(v / 0x100, 1);
    assert b[1] == one[0];
    TwoDigits(v, v / 0x100, v / 0x100 / 0x100);
  }

  lemma TwoDigits(v: nat, q: nat, r: nat)
    requires q == v / 0x100 && r == q / 0x100
    ensures v % 0x100 + 0x100 * (q % 0x100) == v % 0x1_0000
  {
    var low := v % 0x100 + 0x100 * (q % 0x100);
    assert v == 0x1_0000 * r + low && low < 0x1_0000;
  }

  lemma FourDigits(v: nat, high: nat, low: nat, up: nat)
    requires high == v / 0x1_0000 && low == v % 0x1_0000 && up == high % 0x1_0000
    ensures low + 0x1_0000 * up == v % WORD
  {
    assert v == WORD * (high / 0x1_0000) + (low + 0x1_0000 * up) && low + 0x1_0000 * up < WORD;
  }

  lemma {:induction false} TwoAndTwo(v: nat)
    ensures BytesOf(v, 4) == BytesOf(v, 2) + BytesOf(v / 0x1_0000, 2)
  {
    assert v / 0x100 / 0x100 == v / 0x1_0000;
    assert BytesOf(v, 2) == [v % 0x100] + ([v / 0x100 % 0x100] + []);
    assert BytesOf(v, 4) == [v % 0x100] + ([v / 0x100 % 0x100] + BytesOf(v / 0x1_0000, 2));
  }

  lemma {:induction false} FourBytes(v: nat)
    ensures var b := BytesOf(v, 4);
            b[0] as int + 0x100 * b[1] as int + 0x1_0000 * b[2] as int + 0x100_0000 * b[3] as int == v % WORD
  {
    hide BytesOf;
    TwoAndTwo(v);
    TwoBytes(v);
    TwoBytes(v / 0x1_0000);
    FourDigits(v, v / 0x1_0000, v % 0x1_0000, v / 0x1_0000 % 0x1_0000);
  }

  /** The reader of two bytes gives the low ones of the number back. */
  lemma {:induction false} Reads16(s: seq<Byte>, i: nat, v: nat)
    requires Laid(s, i, BytesOf(v, 2))
    ensures Le16(s, i) == v % 0x1_0000
  {
    hide BytesOf, Laid;
    var b := BytesOf(v, 2);
    LaidAt(s, i, b, 0);
    LaidAt(s, i, b, 1);
    TwoBytes(v);
  }

  /** The reader of four bytes gives the low ones of the number back. */
  lemma {:induction false} Reads32(s: seq<Byte>, i: nat, v: nat)
    requires Laid(s, i, BytesOf(v, 4))
    ensures Le32(s, i) == v % WORD
  {
    hide BytesOf, Laid;
    var b := BytesOf(v, 4);
    LaidAt(s, i, b, 0);
    LaidAt(s, i, b, 1);
    LaidAt(s, i, b, 2);
    LaidAt(s, i, b, 3);
    FourBytes(v);
  }

  lemma SmallMod(v: nat, m: nat)
    requires v < m
    ensures v % m == v
  {}

  lemma {:induction false} Reads16Whole(s: seq<Byte>, i: nat, v: nat)
    requires Laid(s, i, BytesOf(v, 2)) && v < 0x1_0000
    ensures Le16(s, i) == v
  {
    hide BytesOf, Laid, Le16;
    Reads16(s, i, v);
    SmallMod(v, 0x1_0000);
  }

  lemma {:induction false} Reads32Whole(s: seq<Byte>, i: nat, v: nat)
    requires Laid(s, i, BytesOf(v, 4)) && v < WORD
    ensures Le32(s, i) == v
  {
    hide BytesOf, Laid, Le32;
    Reads32(s, i, v);
    SmallMod(v, WORD);
  }
}
