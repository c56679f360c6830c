/** The buddy allocator's state as sets of blocks, and what every step keeps.
    A block is the page range [start, start + 2^ord). */
module BuddyBlocks {
  import opened Collections
  import opened Bits

  const MAX_BLOCK_POW: nat := 12

  datatype Block = Block(start: nat, ord: nat)

  function End(b: Block): (e: nat) {
    b.start + Pow2(b.ord)
  }

  predicate Disjoint(a: Block, b: Block) {
    End(a) <= b.start || End(b) <= a.start
  }

  predicate Within(a: Block, b: Block) {
    b.start <= a.start && End(a) <= End(b)
  }

  /** The two halves of one block of the next order. */
  predicate Siblings(a: Block, b: Block) {
    && a.ord == b.ord
    && ((Aligned(a.start, a.ord + 1) && b.start == a.start + Pow2(a.ord))
        || (Aligned(b.start, b.ord + 1) && a.start == b.start + Pow2(b.ord)))
  }

  predicate WellPlaced(b: Block, n: nat) {
    b.ord < MAX_BLOCK_POW && Aligned(b.start, b.ord) && End(b) <= n
  }

  /** Every block is aligned and inside the n managed pages, and no two blocks share a page. */
  ghost predicate Sound(blocks: set<Block>, n: nat) {
    && (forall b :: b in blocks ==> WellPlaced(b, n))
    && (forall a, b :: a in blocks && b in blocks && a != b ==> Disjoint(a, b))
  }

  /** No two free blocks could be merged. */
  ghost predicate Coalesced(free: set<Block>) {
    forall a, b :: a in free && b in free ==> !Siblings(a, b)
  }

  predicate Holds(b: Block, p: int) {
    b.start <= p < End(b)
  }

  /** Page p belongs to one of the blocks. */
  ghost predicate Covers(blocks: set<Block>, p: int) {
    exists b :: b in blocks && Holds(b, p)
  }

  // ----- geometry

  lemma HoldsStart(b: Block)
    ensures Holds(b, b.start) && Holds(b, End(b) - 1)
  {}

  /** Two aligned blocks are disjoint or nested. */
  lemma Nested(a: Block, b: Block)
    requires a.ord <= b.ord && Aligned(a.start, a.ord) && Aligned(b.start, b.ord)
    ensures Disjoint(a, b) || Within(a, b)
  {
    AlignedDown(b.start, b.ord, a.ord);
    AlignedAdd(b.start, b.ord, a.ord);
    if a.start < b.start {
      AlignedGap(a.start, b.start, a.ord);
    } else if a.start < End(b) {
      AlignedGap(a.start, End(b), a.ord);
    }
  }

  function Sibling(b: Block): (s: Block)
    requires Aligned(b.start, b.ord)
    ensures Siblings(b, s) && Aligned(s.start, s.ord)
  {
    AlignedAlternates(b.start, b.ord);
    AlignedAdd(b.start, b.ord, b.ord);
    if Aligned(b.start, b.ord + 1) then Block(b.start + Pow2(b.ord), b.ord)
    else
      (AlignedDown(b.start - Pow2(b.ord), b.ord + 1, b.ord);
       Block(b.start - Pow2(b.ord), b.ord))
  }

  function Parent(b: Block): (p: Block)
    requires Aligned(b.start, b.ord)
    ensures Aligned(p.start, p.ord) && p.ord == b.ord + 1
  {
    Block(if b.start < Sibling(b).start then b.start else Sibling(b).start, b.ord + 1)
  }

  lemma SiblingUnique(a: Block, b: Block)
    requires Aligned(a.start, a.ord)
    ensures Siblings(a, b) <==> b == Sibling(a)
  {
    AlignedAlternates(a.start, a.ord);
    if Siblings(a, b) && b.start < a.start {
      AlignedDown(b.start, b.ord + 1, b.ord);
      AlignedAlternates(b.start, b.ord);
    }
  }

  lemma ParentHolds(b: Block, p: int)
    requires Aligned(b.start, b.ord)
    ensures Holds(Parent(b), p) <==> Holds(b, p) || Holds(Sibling(b), p)
  {}

  /** What meets neither half meets no page of the whole. */
  lemma ClearOfParent(b: Block, x: Block)
    requires Aligned(b.start, b.ord) && Disjoint(x, b) && Disjoint(x, Sibling(b))
    ensures Disjoint(x, Parent(b)) && x != Parent(b)
  {
    var q := Parent(b);
    HoldsStart(x);
    if Holds(x, q.start) || Holds(q, x.start) { ParentHolds(b, x.start); ParentHolds(b, q.start); }
  }

  lemma SoundSubset(s: set<Block>, t: set<Block>, n: nat)
    requires Sound(t, n) && s <= t
    ensures Sound(s, n)
  {}

  // ----- freeing: merge with the sibling as long as it is free

  /** The free set after block b joins it. */
  ghost function Coalesce(free: set<Block>, b: Block): set<Block>
    requires Aligned(b.start, b.ord)
    decreases MAX_BLOCK_POW - b.ord
  {
    if b.ord < MAX_BLOCK_POW && Sibling(b) in free then
      Coalesce(free - {Sibling(b)}, Parent(b))
    else
      free + {b}
  }

  /** Merging a floating block with its free sibling keeps everything apart,
      and never produces a block of order MAX_BLOCK_POW. */
  lemma MergeSound(free: set<Block>, rest: set<Block>, b: Block, n: nat)
    requires n < Pow2(MAX_BLOCK_POW)
    requires Sound(free + rest + {b}, n) && free !! rest && b !in free + rest
    requires Sibling(b) in free
    ensures var free' := free - {Sibling(b)};
            Sound(free' + rest + {Parent(b)}, n) && Parent(b) !in free' + rest
    ensures b.ord + 1 < MAX_BLOCK_POW
  {
    var s, q := Sibling(b), Parent(b);
    Pow2Mono(b.ord + 1, MAX_BLOCK_POW);
    assert s in free + rest + {b} && b in free + rest + {b};
    assert End(q) <= n;
    if b.ord + 1 == MAX_BLOCK_POW { assert false; }
    forall x | x in free - {s} + rest
      ensures Disjoint(x, q) && x != q
    {
      assert x in free + rest + {b};
      assert Disjoint(x, s) && Disjoint(x, b);
      ClearOfParent(b, x);
    }
  }

  lemma {:induction false} CoalesceKeeps(free: set<Block>, rest: set<Block>, b: Block, n: nat)
    requires n < Pow2(MAX_BLOCK_POW)
    requires Sound(free + rest + {b}, n) && free !! rest && b !in free + rest
    requires Coalesced(free)
    ensures Sound(Coalesce(free, b) + rest, n) && Coalesce(free, b) !! rest
    ensures Coalesced(Coalesce(free, b))
    ensures forall p :: Covers(Coalesce(free, b), p) <==> Covers(free, p) || Holds(b, p)
    decreases MAX_BLOCK_POW - b.ord
  {
    if Sibling(b) in free {
      var s, q := Sibling(b), Parent(b);
      var free' := free - {s};
      MergeSound(free, rest, b, n);
      CoalesceKeeps(free', rest, q, n);
      forall p
        ensures Covers(Coalesce(free, b), p) <==> Covers(free, p) || Holds(b, p)
      {
        ParentHolds(b, p);
        CoversRemove(free, s, p);
      }
    } else {
      assert free + {b} + rest == free + rest + {b};
      forall x, y | x in free + {b} && y in free + {b}
        ensures !Siblings(x, y)
      {
        SiblingUnique(b, x);
        SiblingUnique(b, y);
        assert x in free + rest + {b} && y in free + rest + {b};
        assert Siblings(x, y) ==> x != y;
      }
      forall p
        ensures Covers(free + {b}, p) <==> Covers(free, p) || Holds(b, p)
      {
        CoversAdd(free, b, p);
      }
    }
  }

  lemma CoversAdd(s: set<Block>, b: Block, p: int)
    ensures Covers(s + {b}, p) <==> Covers(s, p) || Holds(b, p)
  {
    if Covers(s, p) {
      var x :| x in s && Holds(x, p);
      assert x in s + {b};
    }
    if Holds(b, p) { assert b in s + {b}; }
  }

  lemma CoversRemove(s: set<Block>, b: Block, p: int)
    requires b in s
    ensures Covers(s, p) <==> Covers(s - {b}, p) || Holds(b, p)
  {
    assert s == s - {b} + {b};
    CoversAdd(s - {b}, b, p);
  }

  // ----- allocating: split the lowest block of the smallest sufficient order

  ghost predicate HasOrder(free: set<Block>, k: nat) {
    exists b :: b in free && b.ord == k
  }

  /** The lowest-addressed free block of order k, the head of list k. */
  ghost predicate IsHead(free: set<Block>, h: Block, k: nat) {
    && h in free && h.ord == k
    && forall b :: b in free && b.ord == k ==> h.start <= b.start
  }

  lemma {:induction false} HeadExists(free: set<Block>, k: nat)
    requires HasOrder(free, k)
    ensures exists h :: IsHead(free, h, k)
    decreases |free|
  {
    var b :| b in free && b.ord == k;
    if !IsHead(free, b, k) {
      var c :| c in free && c.ord == k && c.start < b.start;
      HeadExists(free - {b}, k);
      var h :| IsHead(free - {b}, h, k);
      assert IsHead(free, h, k);
    }
  }

  lemma HeadUnique(free: set<Block>, g: Block, h: Block, k: nat)
    requires IsHead(free, g, k) && IsHead(free, h, k)
    ensures g == h
  {}

  ghost function Head(free: set<Block>, k: nat): (h: Block)
    requires HasOrder(free, k)
    ensures IsHead(free, h, k)
  {
    HeadExists(free, k);
    var h :| IsHead(free, h, k);
    h
  }

  /** The smallest order from k up that has a free block; MAX_BLOCK_POW when there is none. */
  ghost function Smallest(free: set<Block>, k: nat): (i: nat)
    requires k <= MAX_BLOCK_POW
    ensures k <= i <= MAX_BLOCK_POW
    ensures i < MAX_BLOCK_POW ==> HasOrder(free, i)
    ensures forall j :: k <= j < i ==> !HasOrder(free, j)
    decreases MAX_BLOCK_POW - k
  {
    if k == MAX_BLOCK_POW || HasOrder(free, k) then k else Smallest(free, k + 1)
  }

  /** Cut the block at p from order j down to order pow; the upper halves become free. */
  ghost function Split(free: set<Block>, p: nat, j: nat, pow: nat): set<Block>
    decreases j
  {
    if j <= pow then free
    else Split(free + {Block(p + Pow2(j - 1), j - 1)}, p, j - 1, pow)
  }

  lemma HalvesPlaced(p: nat, j: nat, n: nat)
    requires 0 < j && WellPlaced(Block(p, j), n)
    ensures var lo, hi := Block(p, j - 1), Block(p + Pow2(j - 1), j - 1);
            && WellPlaced(lo, n) && WellPlaced(hi, n) && Disjoint(lo, hi) && lo != hi && hi == Sibling(lo)
            && (forall x :: Holds(Block(p, j), x) <==> Holds(lo, x) || Holds(hi, x))
  {
    AlignedDown(p, j, j - 1);
    AlignedAdd(p, j - 1, j - 1);
  }

  /** Splitting a listed block into its halves leaves all blocks apart. */
  lemma HalvesSound(rest: set<Block>, p: nat, j: nat, n: nat)
    requires 0 < j && Block(p, j) !in rest && Sound(rest + {Block(p, j)}, n)
    ensures var lo, hi := Block(p, j - 1), Block(p + Pow2(j - 1), j - 1);
            Sound(rest + {lo, hi}, n) && lo !in rest && hi !in rest
    ensures forall c :: c in rest ==> Disjoint(c, Block(p, j))
  {
    var whole, lo, hi := Block(p, j), Block(p, j - 1), Block(p + Pow2(j - 1), j - 1);
    assert whole in rest + {whole};
    HalvesPlaced(p, j, n);
    forall c | c in rest ensures Disjoint(c, whole) && Disjoint(c, lo) && Disjoint(c, hi) && c != lo && c != hi {
      assert c in rest + {whole} && c != whole;
      assert WellPlaced(c, n);
    }
  }

  lemma {:induction false} SplitKeeps(free: set<Block>, rest: set<Block>, p: nat, j: nat, pow: nat, n: nat)
    requires pow <= j
    requires Sound(free + rest + {Block(p, j)}, n) && free !! rest && Block(p, j) !in free + rest
    requires Coalesced(free)
    ensures var free' := Split(free, p, j, pow);
            && Sound(free' + rest + {Block(p, pow)}, n) && free' !! rest && Block(p, pow) !in free' + rest
            && Coalesced(free')
    ensures forall x :: Covers(Split(free, p, j, pow), x) || Holds(Block(p, pow), x)
                   <==> Covers(free, x) || Holds(Block(p, j), x)
    decreases j
  {
    hide Aligned, Sound, Coalesced, Pow2, Holds, Covers;
    if pow < j {
      var lo, hi := Block(p, j - 1), Block(p + Pow2(j - 1), j - 1);
      HalveKeeps(free, rest, p, j, n);
      SplitKeeps(free + {hi}, rest, p, j - 1, pow, n);
      forall x ensures Covers(free + {hi}, x) <==> Covers(free, x) || Holds(hi, x) { CoversAdd(free, hi, x); }
    }
  }

  /** One split: the upper half becomes free, the lower half is split on. */
  lemma {:induction false} HalveKeeps(free: set<Block>, rest: set<Block>, p: nat, j: nat, n: nat)
    requires 0 < j && Sound(free + rest + {Block(p, j)}, n) && free !! rest && Block(p, j) !in free + rest
    requires Coalesced(free)
    ensures var lo, hi := Block(p, j - 1), Block(p + Pow2(j - 1), j - 1);
            && Sound(free + {hi} + rest + {lo}, n) && (free + {hi}) !! rest && lo !in free + {hi} + rest
            && Coalesced(free + {hi})
            && (forall x :: Holds(Block(p, j), x) <==> Holds(lo, x) || Holds(hi, x))
  {
    hide Aligned;
    var whole, lo, hi := Block(p, j), Block(p, j - 1), Block(p + Pow2(j - 1), j - 1);
    var free1 := free + {hi};
    assert whole in free + rest + {whole};
    HalvesPlaced(p, j, n);
    forall x | x in free + rest
      ensures Disjoint(x, lo) && Disjoint(x, hi) && x != lo && x != hi
    {
      assert x in free + rest + {whole} && x != whole;
      assert Disjoint(x, whole);
      HoldsStart(x);
    }
    forall x, y | x in free1 && y in free1
      ensures !Siblings(x, y)
    {
      SiblingUnique(lo, hi);
      SiblingUnique(hi, x);
      SiblingUnique(hi, y);
      SiblingUnique(hi, lo);
    }
  }

  // ----- maximal coalescing and its consequences

  /** In a coalesced state every aligned run of free pages lies inside one free block. */
  lemma {:induction false} FreeRunInOneBlock(free: set<Block>, s: nat, k: nat, n: nat)
    requires Sound(free, n) && Coalesced(free)
    requires Aligned(s, k) && k < MAX_BLOCK_POW
    requires forall p :: Holds(Block(s, k), p) ==> Covers(free, p)
    ensures exists b :: b in free && Within(Block(s, k), b)
    decreases k
  {
    hide Aligned;
    var run := Block(s, k);
    if k == 0 {
      assert Holds(run, s);
      var b :| b in free && Holds(b, s);
      assert Within(run, b);
    } else {
      HalvesPlaced(s, k, End(run));
      var lo, hi := Block(s, k - 1), Block(s + Pow2(k - 1), k - 1);
      FreeRunInOneBlock(free, lo.start, k - 1, n);
      FreeRunInOneBlock(free, hi.start, k - 1, n);
      var b1 :| b1 in free && Within(lo, b1);
      var b2 :| b2 in free && Within(hi, b2);
      GrowOrExact(lo, b1, run);
      GrowOrExact(hi, b2, run);
      SiblingUnique(lo, hi);
      assert !(b1 == lo && b2 == hi);
    }
  }

  /** A block containing half of a run contains the whole run or is exactly that half. */
  lemma GrowOrExact(half: Block, b: Block, run: Block)
    requires Within(half, b) && Within(half, run) && run.ord == half.ord + 1
    requires Aligned(half.start, half.ord) && Aligned(b.start, b.ord) && Aligned(run.start, run.ord)
    ensures Within(run, b) || b == half
  {
    if b.ord > half.ord {
      Nested(run, b);
    } else {
      Pow2Mono(b.ord, half.ord);
      if b.ord < half.ord { Pow2Mono(b.ord + 1, half.ord); }
    }
  }

  /** A 2^pow-aligned run of 2^pow free pages at page s. */
  ghost predicate FreeRun(free: set<Block>, s: nat, pow: nat) {
    Aligned(s, pow) && forall p :: Holds(Block(s, pow), p) ==> Covers(free, p)
  }

  lemma RunInsideBlock(free: set<Block>, b: Block, pow: nat)
    requires b in free && pow <= b.ord && Aligned(b.start, b.ord)
    ensures FreeRun(free, b.start, pow)
  {
    AlignedDown(b.start, b.ord, pow);
    Pow2Mono(pow, b.ord);
    forall p | Holds(Block(b.start, pow), p) ensures Covers(free, p) { assert Holds(b, p); }
  }

  lemma {:induction false} RunGivesOrder(free: set<Block>, s: nat, pow: nat, n: nat)
    requires Sound(free, n) && Coalesced(free) && pow < MAX_BLOCK_POW && FreeRun(free, s, pow)
    ensures Smallest(free, pow) < MAX_BLOCK_POW
  {
    FreeRunInOneBlock(free, s, pow, n);
    var b :| b in free && Within(Block(s, pow), b);
    if b.ord < pow { Pow2Mono(b.ord + 1, pow); }
    assert WellPlaced(b, n) && HasOrder(free, b.ord);
  }

  /** A request can be met from the lists exactly when the free pages contain an aligned run. */
  lemma {:induction false} RequestMetIffRunExists(free: set<Block>, pow: nat, n: nat)
    requires Sound(free, n) && Coalesced(free) && pow < MAX_BLOCK_POW
    ensures Smallest(free, pow) < MAX_BLOCK_POW <==> exists s: nat :: FreeRun(free, s, pow)
  {
    var i := Smallest(free, pow);
    if i < MAX_BLOCK_POW {
      RunInsideBlock(free, Head(free, i), pow);
    }
    if s: nat :| FreeRun(free, s, pow) {
      RunGivesOrder(free, s, pow, n);
    }
  }

  /** The free blocks are determined by which pages are free, whatever history led there. */
  lemma FreeSetDetermined(f: set<Block>, g: set<Block>, n: nat)
    requires Sound(f, n) && Coalesced(f) && Sound(g, n) && Coalesced(g)
    requires forall p :: Covers(f, p) <==> Covers(g, p)
    ensures f == g
  {
    forall b | b in f ensures b in g { SamePagesSubset(f, g, b, n); }
    forall b | b in g ensures b in f { SamePagesSubset(g, f, b, n); }
  }

  lemma SamePagesSubset(f: set<Block>, g: set<Block>, b: Block, n: nat)
    requires Sound(f, n) && Coalesced(f) && Sound(g, n) && Coalesced(g)
    requires forall p :: Covers(f, p) <==> Covers(g, p)
    requires b in f
    ensures b in g
  {
    forall p | Holds(b, p) ensures Covers(g, p) { assert Covers(f, p); }
    FreeRunInOneBlock(g, b.start, b.ord, n);
    var c :| c in g && Within(b, c);
    forall p | Holds(c, p) ensures Covers(f, p) { assert Covers(g, p); }
    FreeRunInOneBlock(f, c.start, c.ord, n);
    var d :| d in f && Within(c, d);
    HoldsStart(b);
    if b != d { assert false; }
    SameExtent(b, c);
  }

  lemma SameExtent(b: Block, c: Block)
    requires Within(b, c) && Within(c, b)
    ensures b == c
  {
    if b.ord < c.ord { Pow2Mono(b.ord + 1, c.ord); }
    if c.ord < b.ord { Pow2Mono(c.ord + 1, b.ord); }
  }

  // ----- page counts

  ghost function Weight(s: set<Block>): nat {
    if s == {} then 0
    else
      var b :| b in s;
      Pow2(b.ord) + Weight(s - {b})
  }

  lemma {:induction false} WeightRemove(s: set<Block>, b: Block)
    requires b in s
    ensures Weight(s) == Pow2(b.ord) + Weight(s - {b})
    decreases |s|
  {
    var c :| c in s && Weight(s) == Pow2(c.ord) + Weight(s - {c});
    if b != c {
      WeightRemove(s - {c}, b);
      WeightRemove(s - {b}, c);
      assert s - {c} - {b} == s - {b} - {c};
    }
  }

  lemma {:induction false} WeightAdd(s: set<Block>, b: Block)
    requires b !in s
    ensures Weight(s + {b}) == Weight(s) + Pow2(b.ord)
  {
    WeightRemove(s + {b}, b);
    assert s + {b} - {b} == s;
  }

  lemma {:induction false} WeightSubset(s: set<Block>, t: set<Block>)
    requires s <= t
    ensures Weight(s) <= Weight(t)
    ensures Weight(s) == Weight(t) ==> s == t
    decreases |t|
  {
    if s != t {
      var b :| b in t && b !in s;
      WeightRemove(t, b);
      WeightSubset(s, t - {b});
    }
  }

  lemma {:induction false} CoalesceStep(free: set<Block>, b: Block)
    requires Aligned(b.start, b.ord)
    ensures Aligned(Parent(b).start, Parent(b).ord) && Parent(b).ord == b.ord + 1 && Sibling(b).ord == b.ord
    ensures Pow2(Parent(b).ord) == Pow2(b.ord) + Pow2(b.ord)
    ensures if b.ord < MAX_BLOCK_POW && Sibling(b) in free then Coalesce(free, b)
            == Coalesce(free - {Sibling(b)}, Parent(b))
            else Coalesce(free, b) == free + {b}
  {}

  lemma {:induction false} CoalesceWeight(free: set<Block>, b: Block)
    requires Aligned(b.start, b.ord) && b !in free
    requires forall x :: x in free ==> Disjoint(x, b)
    requires forall x, y :: x in free && y in free && x != y ==> Disjoint(x, y)
    ensures Weight(Coalesce(free, b)) == Weight(free) + Pow2(b.ord)
    decreases MAX_BLOCK_POW - b.ord
  {
    CoalesceStep(free, b);
    hide Aligned, Disjoint, Holds, Coalesce, Weight, Pow2, Sibling, Parent;
    if b.ord < MAX_BLOCK_POW && Sibling(b) in free {
      var s, q := Sibling(b), Parent(b);
      forall x | x in free - {s} ensures Disjoint(x, q) && x != q { ClearOfParent(b, x); }
      WeightRemove(free, s);
      CoalesceWeight(free - {s}, q);
    } else {
      WeightAdd(free, b);
    }
  }

  lemma {:induction false} SplitWeight(free: set<Block>, p: nat, j: nat, pow: nat, n: nat)
    requires pow <= j
    requires Sound(free + {Block(p, j)}, n) && Block(p, j) !in free
    ensures Weight(Split(free, p, j, pow)) == Weight(free) + Pow2(j) - Pow2(pow)
    decreases j
  {
    hide Sound, Weight;
    if pow < j {
      var lo, hi := Block(p, j - 1), Block(p + Pow2(j - 1), j - 1);
      HalvesSound(free, p, j, n);
      assert free + {lo, hi} == free + {hi} + {lo};
      WeightAdd(free, hi);
      SplitWeight(free + {hi}, p, j - 1, pow, n);
    }
  }

  // ----- pages that no block holds

  ghost function Pages(s: set<Block>, n: nat): (r: set<nat>)
    ensures forall p: nat :: p in r <==> p < n && Covers(s, p)
  {
    set p: nat | p in Below(n) && Covers(s, p)
  }

  lemma {:induction false} PageCount(s: set<Block>, n: nat)
    requires Sound(s, n)
    ensures |Pages(s, n)| == Weight(s)
    decreases |s|
  {
    if b :| b in s {
      SoundSubset(s - {b}, s, n);
      PageCount(s - {b}, n);
      WeightRemove(s, b);
      PagesSplit(s, b, n);
    } else {
      assert Pages(s, n) == {};
    }
  }

  lemma PagesSplit(s: set<Block>, b: Block, n: nat)
    requires Sound(s, n) && b in s
    ensures Pages(s, n) == Pages(s - {b}, n) + Held(b) && Pages(s - {b}, n) !! Held(b)
  {
    hide Aligned, Pow2;
    forall p: nat ensures p in Pages(s, n) <==> p in Pages(s - {b}, n) || p in Held(b) { CoversRemove(s, b, p); }
    forall p: nat | p in Held(b) ensures !Covers(s - {b}, p) {
      assert forall c :: c in s - {b} ==> Disjoint(c, b);
    }
  }

  /** The pages of a block. */
  function Held(b: Block): (r: set<nat>)
    ensures forall p: nat :: p in r <==> Holds(b, p)
    ensures |r| == Pow2(b.ord)
  {
    UpTo(b.start, Pow2(b.ord));
    Below(End(b)) - Below(b.start)
  }

  lemma UpTo(a: nat, k: nat)
    ensures |Below(a + k) - Below(a)| == k
  {
    assert Below(a + k) == Below(a) + (Below(a + k) - Below(a));
  }

  /** Blocks that weigh less than n leave a page below n uncovered, and conversely. */
  lemma {:induction false} LostPageIff(s: set<Block>, n: nat)
    requires Sound(s, n)
    ensures Weight(s) <= n
    ensures Weight(s) < n <==> exists p: nat :: p < n && !Covers(s, p)
  {
    PageCount(s, n);
    SubsetSize(Pages(s, n), Below(n));
    if p: nat :| p < n && !Covers(s, p) {
      SubsetSize(Pages(s, n), Below(n) - {p});
    } else {
      assert Pages(s, n) == Below(n);
    }
  }
}
