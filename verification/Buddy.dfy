/** kernel/buddy.c in place: `indices` and the page records are arrays that every operation rewrites.
    Each method is tied to the step functions of module BuddyRuns. */
module Buddy {
  import opened Defs
  import opened Readings
  import opened Collections
  import opened Bits
  import opened BuddyBlocks
  import opened BuddyLists
  import opened BuddyRuns

  // ----- what the lists say about the sets

  lemma ListHead(heads: seq<int>, pages: seq<PageInfo>, lists: seq<seq<nat>>, k: nat)
    requires Linked(heads, pages, lists) && k < MAX_BLOCK_POW
    ensures heads[k] == -1 <==> lists[k] == []
    ensures lists[k] == [] <==> !HasOrder(FreeSet(lists), k)
    ensures lists[k] != [] ==>
              && heads[k] == lists[k][0] < |pages|
              && IsHead(FreeSet(lists), Block(lists[k][0], k), k)
              && Head(FreeSet(lists), k) == Block(lists[k][0], k)
              && pages[lists[k][0]].next == At(lists[k], 1)
  {
    assert ListOk(heads, pages, lists, k);
    if lists[k] != [] {
      var h := Block(lists[k][0], k);
      assert NodeOk(pages, lists[k], k, 0);
      assert h in FreeSet(lists);
      HeadUnique(FreeSet(lists), h, Head(FreeSet(lists), k), k);
    }
  }

  lemma {:induction false} SmallestIs(free: set<Block>, pow: nat, i: nat)
    requires pow <= i <= MAX_BLOCK_POW
    requires forall j :: pow <= j < i ==> !HasOrder(free, j)
    requires i < MAX_BLOCK_POW ==> HasOrder(free, i)
    ensures Smallest(free, pow) == i
  {}

  /** Emptying list k forgets every block of that order. */
  lemma ClearList(heads: seq<int>, pages: seq<PageInfo>, lists: seq<seq<nat>>, k: nat)
    requires Linked(heads, pages, lists) && k < MAX_BLOCK_POW
    ensures Linked(heads[k := -1], pages, lists[k := []])
    ensures FreeSet(lists[k := []]) == FreeSet(lists) - OfOrder(FreeSet(lists), k)
  {
    var heads', lists' := heads[k := -1], lists[k := []];
    forall l | 0 <= l < MAX_BLOCK_POW ensures ListOk(heads', pages, lists', l) {
      assert ListOk(heads, pages, lists, l);
    }
    FreeSetReplace(lists, k, []);
  }

  /** One split: the list heads, the records, the lists and the blocks stay consistent. */
  lemma Cut(heads: seq<int>, pages: seq<PageInfo>, lists: seq<seq<nat>>, j: nat, n: nat)
    requires Linked(heads, pages, lists) && Sound(FreeSet(lists), n) && n <= |pages|
    requires 0 < j < MAX_BLOCK_POW && lists[j] != [] && lists[j - 1] == []
    ensures var p1, p2 := lists[j][0], lists[j][0] + Pow2(j - 1);
            && p1 == heads[j] && p1 != p2 && p2 < |pages|
            && Linked(heads[j := pages[p1].next][j - 1 := p1], CutPages(pages, p1, p2, j), CutLists(lists, j))
            && FreeSet(CutLists(lists, j)) == FreeSet(lists) - {Block(p1, j)} + {Block(p1, j - 1), Block(p2, j - 1)}
            && Sound(FreeSet(CutLists(lists, j)), n)
  {
    var p1, p2 := lists[j][0], lists[j][0] + Pow2(j - 1);
    var whole := Block(p1, j);
    ListHead(heads, pages, lists, j);
    assert ListOk(heads, pages, lists, j);
    SoundSeparate(lists, n);
    CutInside(lists, whole, p2, n);
    HalvesSound(FreeSet(lists) - {whole}, p1, j, n);
    CutSet(lists, j);
    CutLinked(heads, pages, lists, j, p1, p2);
  }

  lemma CutInside(lists: seq<seq<nat>>, whole: Block, p2: nat, n: nat)
    requires Sound(FreeSet(lists), n) && whole in FreeSet(lists) && whole.ord > 0
             && p2 == whole.start + Pow2(whole.ord - 1)
    ensures FreeSet(lists) - {whole} + {whole} == FreeSet(lists)
    ensures whole.start != p2 && p2 < n && !Listed(lists, p2)
  {
    assert WellPlaced(whole, n);
    HalvesPlaced(whole.start, whole.ord, n);
    UnlistedInside(lists, whole, p2, n);
  }

  lemma FreeRecord(heads: seq<int>, pages: seq<PageInfo>, lists: seq<seq<nat>>, b: Block)
    requires Linked(heads, pages, lists) && b in FreeSet(lists)
    ensures b.start < |pages| && pages[b.start].pow == b.ord
  {
    assert ListOk(heads, pages, lists, b.ord);
    var i :| 0 <= i < |lists[b.ord]| && lists[b.ord][i] == b.start;
    assert NodeOk(pages, lists[b.ord], b.ord, i);
  }

  /** What is free besides the piece being carved, before and after one split. */
  lemma CutRest(free: set<Block>, p: nat, j: nat, pow: nat, n: nat)
    requires pow < j && Block(p, j) in free && Sound(free, n)
    ensures var lo, hi := Block(p, j - 1), Block(p + Pow2(j - 1), j - 1);
            && Split(free - {Block(p, j)}, p, j, pow) == Split(free - {Block(p, j)} + {lo, hi} - {lo}, p, j - 1, pow)
            && Holds(Block(p, j), p) && Holds(Block(p, j), p + Pow2(j - 1)) && End(lo) <= End(Block(p, j))
  {
    assert free - {Block(p, j)} + {Block(p, j)} == free;
    HalvesSound(free - {Block(p, j)}, p, j, n);
    var lo, hi := Block(p, j - 1), Block(p + Pow2(j - 1), j - 1);
    assert free - {Block(p, j)} + {lo, hi} - {lo} == free - {Block(p, j)} + {hi};
  }

  lemma {:induction false} SplitNone(free: set<Block>, p: nat, pow: nat)
    ensures Split(free, p, pow, pow) == free
  {}

  lemma CarveHead(lists: seq<seq<nat>>, p: nat, j: nat)
    requires j < |lists| && lists[j] != [] && lists[j][0] == p
    ensures Block(p, j) in FreeSet(lists)
  {}

  lemma FreeSound(free: set<Block>, live: set<Block>, total: nat)
    requires Placed(free, live, Managed(total))
    ensures Sound(free, total)
  {
    ManagedBound(total);
    SoundSubset(free, free + live, Managed(total));
  }

  /** The records of live blocks: the start knows the order, and exactly live pages are flagged used. */
  ghost predicate Flagged(pages: seq<PageInfo>, live: set<Block>) {
    && (forall b :: b in live ==> b.start < |pages| && pages[b.start].pow == b.ord)
    && (forall p :: 0 <= p < |pages| ==> (pages[p].used <==> Covers(live, p)))
  }

  lemma FlagsTaken(pages: seq<PageInfo>, pages': seq<PageInfo>, live: set<Block>, b: Block)
    requires Flagged(pages, live) && |pages'| == |pages| && End(b) <= |pages|
    requires forall p :: 0 <= p < |pages| ==>
               pages'[p].used == (Holds(b, p) || pages[p].used)
    requires forall c :: c in live + {b} ==> c.start < |pages| && pages'[c.start].pow == c.ord
    ensures Flagged(pages', live + {b})
  {
    forall p | 0 <= p < |pages| ensures pages'[p].used <==> Covers(live + {b}, p) { CoversAdd(live, b, p); }
  }

  lemma TakenPlace(was: State, pow: nat, r: Reading, total: nat)
    requires Inv(was, total) && pow < MAX_BLOCK_POW && !Exhausted(was.free, pow)
    ensures var b := Block(Source(was.free, pow).start, pow);
            Placed(FreeAfterAlloc(was.free, pow, r), was.live + {b}, Managed(total)) && End(b) <= total
  {
    AllocKeeps(was, pow, r, total);
    ManagedBound(total);
    assert Block(Source(was.free, pow).start, pow) in AfterAlloc(was, pow, r).live;
  }

  lemma TakenFlags(was: State, pow: nat, pages: seq<PageInfo>, pages': seq<PageInfo>, total: nat)
    requires Inv(was, total) && pow < MAX_BLOCK_POW && !Exhausted(was.free, pow)
    requires Flagged(pages, was.live) && |pages| == |pages'| == total
    requires Source(was.free, pow).start < total && pages'[Source(was.free, pow).start].pow == pow
    requires var h := Source(was.free, pow);
             forall p :: 0 <= p < total ==>
               && pages'[p].used == (Holds(Block(h.start, pow), p) || pages[p].used)
               && (!Holds(h, p) ==> pages'[p].pow == pages[p].pow)
    ensures Flagged(pages', was.live + {Block(Source(was.free, pow).start, pow)})
  {
    var h := Source(was.free, pow);
    var b := Block(h.start, pow);
    TakenPlace(was, pow, Intended, total);
    forall c | c in was.live ensures c.start < total && pages'[c.start].pow == c.ord {
      assert c in was.free + was.live && h in was.free + was.live;
      assert Disjoint(c, h) && Holds(c, c.start);
    }
    FlagsTaken(pages, pages', was.live, b);
  }

  lemma FlagsDropped(pages: seq<PageInfo>, pages': seq<PageInfo>, live: set<Block>, b: Block, n: nat)
    requires Flagged(pages, live) && |pages'| == |pages| && b in live && Sound(live, n)
    requires forall p :: 0 <= p < |pages| ==>
               pages'[p] == if Holds(b, p) then pages[p].(used := false) else pages[p]
    ensures Flagged(pages', live - {b})
  {
    forall p | 0 <= p < |pages| ensures pages'[p].used <==> Covers(live - {b}, p) {
      CoversRemove(live, b, p);
      if Holds(b, p) {
        assert forall c :: c in live - {b} ==> Disjoint(c, b);
      }
    }
  }

  /** Orders i and up are listed, on the pages below cur. */
  ghost predicate Building(lists: seq<seq<nat>>, total: nat, i: nat, cur: nat) {
    && (forall k :: 0 <= k < i && k < |lists| ==> lists[k] == [])
    && cur + Low(total, i) <= total && Aligned(cur, i)
    && (forall b :: b in FreeSet(lists) ==> End(b) <= cur)
    && FreeSet(lists) + InitFrom(total, i, cur) == InitBlocks(total)
  }

  lemma BuildStart(lists: seq<seq<nat>>, total: nat, i: nat)
    requires i == MAX_BLOCK_POW && FreeSet(lists) == {}
    requires forall k :: 0 <= k < |lists| ==> lists[k] == []
    ensures Building(lists, total, i, 0)
  {
    LowBound(total, i);
    AlignedZero(i);
  }

  lemma BuildDone(lists: seq<seq<nat>>, total: nat, cur: nat)
    requires Building(lists, total, 0, cur)
    ensures FreeSet(lists) == InitBlocks(total)
  {}

  lemma BuildStep(lists: seq<seq<nat>>, total: nat, i: nat, cur: nat)
    requires |lists| == MAX_BLOCK_POW && i < MAX_BLOCK_POW && Building(lists, total, i + 1, cur)
    ensures And(total, Pow2(i)) == 0 ==> Building(lists, total, i, cur)
    ensures And(total, Pow2(i)) != 0 ==>
              && cur < total && lists[i] == []
              && (forall c :: c in FreeSet(lists) ==> Disjoint(c, Block(cur, i)))
              && Building(lists[i := [cur]], total, i, cur + Pow2(i))
  {
    hide Low, And, Aligned, Pow2;
    BitStep(total, i + 1, cur);
    FreeSetReplace(lists, i, [cur]);
  }

  /** No list contains an interior page of a listed block. */
  lemma UnlistedInside(lists: seq<seq<nat>>, b: Block, x: nat, n: nat)
    requires Sound(FreeSet(lists), n) && b in FreeSet(lists) && Holds(b, x) && x != b.start
    ensures !Listed(lists, x)
  {
    if Listed(lists, x) {
      var k :| 0 <= k < |lists| && x in lists[k];
      var c := Block(x, k);
      if c in FreeSet(lists) && Disjoint(c, b) { assert false; }
    }
  }

  lemma StillUnlisted(lists: seq<seq<nat>>, k: nat, i: nat, x: nat)
    requires k < |lists| && i < |lists[k]| && !Listed(lists, x)
    ensures !Listed(lists[k := RemoveAt(lists[k], i)], x)
  {
    var lists' := lists[k := RemoveAt(lists[k], i)];
    forall l | 0 <= l < |lists'| ensures x !in lists'[l] {
      assert x !in lists[l];
    }
  }

  lemma GoneFromLists(lists: seq<seq<nat>>, k: nat, i: nat)
    requires k < |lists| && i < |lists[k]| && Separate(lists) && Ascending(lists[k])
    ensures !Listed(lists[k := RemoveAt(lists[k], i)], lists[k][i])
  {
    var x := lists[k][i];
    var lists' := lists[k := RemoveAt(lists[k], i)];
    RemoveAtFacts(lists[k], i);
    forall l | 0 <= l < |lists'| ensures x !in lists'[l] {
      assert x in lists[k];
    }
  }

  // ----- the block being freed, on no list while it grows

  ghost predicate Floating(free: set<Block>, rest: set<Block>, cur: Block, n: nat) {
    Sound(free + rest + {cur}, n) && free !! rest && cur !in free + rest
  }

  ghost predicate AllLive(live: set<Block>, b: Block) {
    forall p :: Holds(b, p) ==> Covers(live, p)
  }

  /** The used flags panic: two pages of the block disagree, or it is not in use at all. */
  ghost predicate CheckPanics(live: set<Block>, b: Block, n: nat) {
    || (exists p :: 0 <= p < n && Holds(b, p) && (Covers(live, p) <==> !Covers(live, b.start)))
    || (End(b) <= n && !Covers(live, b.start))
  }

  /** Some page of the block has another flag than its first one. */
  ghost predicate Differs(pages: seq<PageInfo>, b: Block)
    requires b.start < |pages|
  {
    exists p :: 0 <= p < |pages| && Holds(b, p) && pages[p].used != pages[b.start].used
  }

  /** What reading the flags decides, in terms of live blocks. */
  lemma CheckMeans(pages: seq<PageInfo>, live: set<Block>, b: Block, n: nat)
    requires Flagged(pages, live) && |pages| == n && b.start < n && Sound(live, n)
    ensures CheckPanics(live, b, n) <==> Differs(pages, b) || (End(b) <= n && !pages[b.start].used)
    ensures AllLive(live, b) <==> End(b) <= n && !Differs(pages, b) && pages[b.start].used
  {
    HoldsStart(b);
    forall p | Covers(live, p) ensures 0 <= p < n { var c :| c in live && Holds(c, p); assert WellPlaced(c, n); }
    if AllLive(live, b) { assert Covers(live, End(b) - 1) && Covers(live, b.start); }
  }

  /** A live block passes the check. */
  lemma LiveIsAllLive(free: set<Block>, live: set<Block>, b: Block, total: nat)
    requires Placed(free, live, Managed(total))
    ensures Sound(live, total)
    ensures b in live ==> AllLive(live, b) && Aligned(b.start, b.ord)
  {
    ManagedBound(total);
    SoundSubset(live, free + live, Managed(total));
  }

  /** The live blocks that share no page with b. */
  ghost function Apart(live: set<Block>, b: Block): set<Block> {
    set c | c in live && Disjoint(c, b)
  }

  /** Pages of live blocks only, taken as a block, are apart from every free block. */
  lemma StartFree(free: set<Block>, live: set<Block>, b: Block, total: nat)
    requires Placed(free, live, Managed(total)) && AllLive(live, b) && Aligned(b.start, b.ord)
    ensures Floating(free, Apart(live, b), b, Managed(total))
    ensures b in live ==> Apart(live, b) == live - {b}
    ensures b.ord < MAX_BLOCK_POW && End(b) <= total && Sound(live, Managed(total))
  {
    var n := Managed(total);
    ManagedBound(total);
    SoundSubset(live, free + live, n);
    AllLivePlaced(live, b, n);
    forall c | c in free ensures Disjoint(c, b) { LiveApart(free, live, b, c, n); }
    HoldsStart(b);
    SoundWith(free, Apart(live, b), live, b, n);
    if b in live {
      forall c | c in live && c != b ensures Disjoint(c, b) {}
      assert !Disjoint(b, b);
    }
  }

  lemma AllLivePlaced(live: set<Block>, b: Block, n: nat)
    requires Sound(live, n) && n < Pow2(MAX_BLOCK_POW) && AllLive(live, b) && Aligned(b.start, b.ord)
    ensures WellPlaced(b, n)
  {
    HoldsStart(b);
    var c :| c in live && Holds(c, End(b) - 1);
    assert WellPlaced(c, n);
    if b.ord >= MAX_BLOCK_POW { Pow2Mono(MAX_BLOCK_POW, b.ord); }
  }

  lemma LiveApart(free: set<Block>, live: set<Block>, b: Block, c: Block, n: nat)
    requires Sound(free + live, n) && free !! live && AllLive(live, b) && c in free
    ensures Disjoint(c, b)
  {
    hide Pow2;
    assert c in free + live;
    forall d | d in live ensures Disjoint(c, d) { assert d in free + live; }
    forall p | Holds(b, p) ensures !Holds(c, p) {
      var d :| d in live && Holds(d, p);
    }
    CommonPage(b, c);
  }

  lemma CommonPage(b: Block, c: Block)
    ensures Disjoint(c, b) || exists p :: Holds(b, p) && Holds(c, p)
  {
    HoldsStart(b);
    HoldsStart(c);
  }

  lemma SoundWith(free: set<Block>, rest: set<Block>, live: set<Block>, b: Block, n: nat)
    requires Sound(free + live, n) && free !! live && rest <= live && WellPlaced(b, n)
    requires forall c :: c in free + rest ==> Disjoint(c, b)
    ensures Floating(free, rest, b, n)
  {
    SoundSubset(free + rest, free + live, n);
    assert !Disjoint(b, b);
  }

  /** What freeing a block inside live ones leaves: its pages are on a free list and in a live block. */
  ghost predicate FreedInside(s: State, t: State, b: Block) {
    && Aligned(b.start, b.ord) && t.free == Coalesce(s.free, b) && t.live == s.live
       && t.freePages == s.freePages + Pow2(b.ord)
    && forall p :: Holds(b, p) ==> Covers(t.free, p) && Covers(t.live, p)
  }

  lemma {:induction false} InsideBoth(s: State, b: Block, total: nat)
    requires Inv(s, total) && AllLive(s.live, b) && Aligned(b.start, b.ord)
    ensures FreedInside(s, State(Coalesce(s.free, b), s.live, s.freePages + Pow2(b.ord)), b)
  {
    ManagedBound(total);
    StartFree(s.free, s.live, b, total);
    CoalesceKeeps(s.free, Apart(s.live, b), b, Managed(total));
  }

  lemma FloatingPlaced(free: set<Block>, rest: set<Block>, cur: Block, n: nat)
    requires Floating(free, rest, cur, n)
    ensures cur.ord < MAX_BLOCK_POW && Aligned(cur.start, cur.ord)
  {
    assert cur in free + rest + {cur};
  }

  lemma FloatingFacts(lists: seq<seq<nat>>, rest: set<Block>, cur: Block, n: nat, total: nat)
    requires Floating(FreeSet(lists), rest, cur, n) && |lists| == MAX_BLOCK_POW && n <= total
    ensures cur.ord < MAX_BLOCK_POW && Aligned(cur.start, cur.ord)
    ensures Separate(lists) && !Listed(lists, cur.start)
    ensures forall j :: 0 <= j < |lists[cur.ord]| ==> Aligned(lists[cur.ord][j], cur.ord)
  {
    var all := FreeSet(lists) + rest + {cur};
    assert cur in all;
    SoundSubset(FreeSet(lists), all, n);
    SoundSeparate(lists, n);
    forall c | c in FreeSet(lists) ensures Disjoint(c, cur) { assert c in all; }
    NotListed(lists, cur.start, cur);
    forall j | 0 <= j < |lists[cur.ord]| ensures Aligned(lists[cur.ord][j], cur.ord) {
      var c := Block(lists[cur.ord][j], cur.ord);
      assert c in FreeSet(lists) && c in all;
    }
  }

  /** A block of the set starts at y. */
  ghost predicate Starts(blocks: set<Block>, y: nat) {
    exists b :: b in blocks && b.start == y
  }

  /** y is x or starts a block below it. */
  ghost predicate LowerStart(blocks: set<Block>, x: nat, y: nat) {
    y == x || (y < x && Starts(blocks, y))
  }

  /** Merging with a listed sibling: one more step of Coalesce, one order up. */
  lemma MergeFloating(free: set<Block>, rest: set<Block>, cur: Block, s: Block, n: nat)
    requires n < Pow2(MAX_BLOCK_POW) && Floating(free, rest, cur, n) && s in free
    requires Aligned(cur.start, cur.ord) && Siblings(cur, s)
    ensures Grown(free, free - {s}, rest, cur, if cur.start < s.start then cur.start else s.start, n)
    ensures forall c :: c in rest ==> c.start != cur.start && c.start != s.start
  {
    SiblingUnique(cur, s);
    MergeSound(free, rest, cur, n);
    RestElsewhere(free, rest, cur, s, n);
  }

  lemma RestElsewhere(free: set<Block>, rest: set<Block>, cur: Block, s: Block, n: nat)
    requires Floating(free, rest, cur, n) && s in free
    ensures forall c :: c in rest ==> c.start != cur.start && c.start != s.start
  {
    var all := free + rest + {cur};
    assert s in all && cur in all;
    forall c | c in rest ensures c.start != cur.start && c.start != s.start {
      assert c in all;
    }
  }

  /** One merge: the floating block at `cur` became the one at `next`, one order up. */
  ghost predicate Grown(free: set<Block>, free': set<Block>, rest: set<Block>, cur: Block, next: nat, n: nat) {
    && Aligned(cur.start, cur.ord) && Aligned(next, cur.ord + 1)
    && cur.ord + 1 < MAX_BLOCK_POW
    && Floating(free', rest, Block(next, cur.ord + 1), n)
    && Coalesce(free, cur) == Coalesce(free', Block(next, cur.ord + 1))
  }

  ghost predicate FlagsKept(pages: seq<PageInfo>, pages': seq<PageInfo>, live: set<Block>) {
    && |pages| == |pages'|
    && (forall p :: 0 <= p < |pages| ==> pages'[p].used == pages[p].used)
    && (forall c :: c in live && c.start < |pages| ==> pages'[c.start].pow == pages[c.start].pow)
  }

  lemma FlagsKeptFlagged(pages: seq<PageInfo>, pages': seq<PageInfo>, live: set<Block>)
    requires Flagged(pages, live) && FlagsKept(pages, pages', live)
    ensures Flagged(pages', live)
  {}

  /** Freeing a live block is what a run does for its start page. */
  lemma FreeStepIs(s: State, b: Block, total: nat)
    requires Inv(s, total) && b in s.live && Aligned(b.start, b.ord)
    ensures forall r :: Step(s, Free(b.start), r) == Some(AfterFree(s, b))
  {
    assert LiveAt(s, b.start, b);
    forall c | LiveAt(s, b.start, c) ensures c == b { LiveBlockUnique(s, total, b, c); }
  }

  /** Neither neighbour on the list is the sibling, so the sibling is not on the list. */
  lemma {:induction false} NoNeighbour(xs: seq<nat>, x: nat, k: nat, i: nat)
    requires Ascending(xs) && Aligned(x, k) && forall j :: 0 <= j < |xs| ==> Aligned(xs[j], k)
    requires i <= |xs|
    requires forall j :: 0 <= j < i ==> xs[j] < x
    requires forall j :: i <= j < |xs| ==> x < xs[j]
    requires i > 0 ==> !Siblings(Block(xs[i - 1], k), Block(x, k))
    requires i < |xs| ==> !Siblings(Block(x, k), Block(xs[i], k))
    ensures Sibling(Block(x, k)).start !in xs
  {
    if Sibling(Block(x, k)).start in xs {
      SiblingIsNeighbour(xs, x, k, i);
    }
  }

  lemma {:induction false} FinishFree(free: set<Block>, live: set<Block>, b: Block, total: nat)
    requires Placed(free, live, Managed(total)) && b in live && Aligned(b.start, b.ord)
    ensures Placed(Coalesce(free, b), live - {b}, Managed(total))
  {
    ManagedBound(total);
    StartFree(free, live, b, total);
    CoalesceKeeps(free, live - {b}, b, Managed(total));
  }

  /** What buddy_get_used finds. */
  datatype Check = Uniform(used: bool) | Mixed | PastEnd

  /** Undefined: the record of the page was never that of a block, and the code uses it as one. */
  datatype FreeResult = Freed | Panic | Undefined

  class BuddySystem {
    const managedStart: nat
    const totalPages: nat
    const indices: array<int>
    const buddies: array<PageInfo>
    const adats: array<int> // the adat fields of the page records, which only SetAdat changes
    var freePages: int
    ghost var lists: seq<seq<nat>>
    ghost var live: set<Block>

    ghost function FreeBlocks(): set<Block>
      reads this`lists
    {
      FreeSet(lists)
    }

    /** The abstract state. */
    ghost function Abs(): State
      reads this
    {
      State(FreeBlocks(), live, freePages)
    }

    ghost predicate Shape()
      reads this`lists, indices, buddies
    {
      && indices.Length == MAX_BLOCK_POW
      && buddies.Length == adats.Length == totalPages && adats != indices
      && |lists| == MAX_BLOCK_POW
      && Linked(indices[..], buddies[..], lists)
    }

    ghost predicate Valid()
      reads this, indices, buddies
    {
      && Core()
      && freePages + Weight(live) == totalPages
      && Leak(Abs(), totalPages) >= 0
    }

    // buddy_init; which records hold what before it runs is not known
    constructor (start: nat, total: nat, records: seq<PageInfo>)
      requires |records| == total
      ensures Valid() && fresh(indices) && fresh(buddies) && fresh(adats)
      ensures managedStart == start && totalPages == total
      ensures Abs() == InitState(total)
    {
      managedStart, totalPages, freePages := start, total, total;
      indices := new int[MAX_BLOCK_POW](_ => -1);
      buddies := new PageInfo[total](i requires 0 <= i < |records| => records[i]);
      adats := new int[total](_ => 0);
      lists := seq(MAX_BLOCK_POW, _ => []);
      live := {};
      new;
      forall k | 0 <= k < MAX_BLOCK_POW ensures ListOk(indices[..], buddies[..], lists, k) {}
      assert FreeSet(lists) == {};
      BuildLists();
      var i := 0;
      while i < totalPages
        invariant 0 <= i <= totalPages
        invariant Shape() && FreeSet(lists) == InitBlocks(total) && live == {} && freePages == total
        invariant forall p :: 0 <= p < i ==> !buddies[p].used
      {
        ghost var before := buddies[..];
        buddies[i] := buddies[i].(used := false);
        LinkedFrame(indices[..], before, buddies[..], lists);
        i := i + 1;
      }
      InitInv(total);
    }

    // lines 119-121: the block becomes the only one of its order
    method ListFirst(cur: nat, i: nat)
      requires Shape() && i < MAX_BLOCK_POW && cur < totalPages && lists[i] == []
      requires forall c :: c in FreeBlocks() ==> Disjoint(c, Block(cur, i))
      modifies this`lists, indices, buddies
      ensures Shape() && lists == old(lists)[i := [cur]]
      ensures FreeBlocks() == old(FreeBlocks()) + {Block(cur, i)}
    {
      LinkFirst(indices[..], buddies[..], lists, Block(cur, i));
      buddies[cur] := buddies[cur].(pow := i);
      buddies[cur] := buddies[cur].(next := -1);
      indices[i] := cur;
      lists := lists[i := [cur]];
      assert buddies[..] == old(buddies[..])[cur := old(buddies[cur]).(pow := i, next := -1)];
      assert indices[..] == old(indices[..])[i := cur];
    }

    // the loop of buddy_init over the bits of the page count, highest first
    method BuildLists()
      requires Shape() && FreeBlocks() == {} && (forall k :: 0 <= k < MAX_BLOCK_POW ==> lists[k] == [])
      modifies this`lists, indices, buddies
      ensures Shape() && FreeBlocks() == InitBlocks(totalPages)
    {
      hide Linked, Building, And, Pow2, Aligned, Low, InitBlocks;
      var cur: nat, i := 0, indices.Length;
      BuildStart(lists, totalPages, i);
      while i > 0
        invariant 0 <= i <= MAX_BLOCK_POW
        invariant Shape() && Building(lists, totalPages, i, cur)
      {
        i := i - 1;
        BuildStep(lists, totalPages, i, cur);
        if And(totalPages, Pow2(i)) != 0 {
          ListFirst(cur, i);
          cur := cur + Pow2(i);
        }
      }
      BuildDone(lists, totalPages, cur);
    }

    // ----- allocation

    /** buddy_set_used_index (u = true) and buddy_clear_used (u = false) */
    method SetUsed(index: nat, u: bool)
      requires Shape() && index < totalPages && index + Pow2(buddies[index].pow) <= totalPages
      modifies buddies
      ensures Shape()
      ensures forall p :: 0 <= p < totalPages ==>
                buddies[p] == if Holds(Block(index, old(buddies[index].pow)), p) then old(buddies[p]).(used := u)
                              else old(buddies[p])
    {
      hide Linked, Flagged, Pow2, Weight, Coalesced, Sound;
      var pow := buddies[index].pow;
      var i := 0;
      while i < Pow2(pow)
        invariant 0 <= i <= Pow2(pow)
        invariant forall p :: 0 <= p < totalPages ==>
                    buddies[p] == if index <= p < index + i then old(buddies[p]).(used := u) else old(buddies[p])
      {
        buddies[index + i] := buddies[index + i].(used := u);
        i := i + 1;
      }
      LinkedFrame(indices[..], old(buddies[..]), buddies[..], lists);
    }

    /** Lines 152-165: split the block at the head of list j once. */
    method SplitOnce(j: nat)
      requires Shape() && 0 < j < MAX_BLOCK_POW && lists[j] != [] && lists[j - 1] == []
      requires Sound(FreeBlocks(), totalPages)
      modifies this`lists, indices, buddies
      ensures Shape() && Sound(FreeBlocks(), totalPages) && lists == CutLists(old(lists), j)
      ensures var p1, p2 := old(lists[j][0]), old(lists[j][0]) + Pow2(j - 1);
              && FreeBlocks() == old(FreeBlocks()) - {Block(p1, j)} + {Block(p1, j - 1), Block(p2, j - 1)}
              && p1 < totalPages && p2 < totalPages
              && (forall x :: 0 <= x < totalPages && x != p1 && x != p2 ==> buddies[x] == old(buddies[x]))
              && (forall x :: 0 <= x < totalPages ==> buddies[x].used == old(buddies[x].used))
    {
      Cut(indices[..], buddies[..], lists, j, totalPages);
      hide Linked, Sound, Pow2;
      var p1 := indices[j];
      var p2 := indices[j] + Pow2(j - 1);
      indices[j] := buddies[p1].next;
      RecordHalves(p1, p2, j);
      indices[j - 1] := p1;
      lists := CutLists(lists, j);
      assert indices[..] == old(indices[..])[j := old(buddies[p1]).next][j - 1 := p1];
    }

    // lines 159-163: the records of the two halves
    method RecordHalves(p1: nat, p2: nat, j: nat)
      requires p1 < buddies.Length && p2 < buddies.Length && p1 != p2 && 0 < j
      modifies buddies
      ensures buddies[..] == CutPages(old(buddies[..]), p1, p2, j)
    {
      buddies[p1] := buddies[p1].(pow := j - 1);
      buddies[p2] := buddies[p2].(pow := j - 1);
      buddies[p1] := buddies[p1].(next := p2);
      buddies[p2] := buddies[p2].(next := -1);
    }

    /** An order changed only in records that start one of the blocks, which is of that order. */
    twostate predicate Recorded(blocks: set<Block>)
      requires buddies.Length == totalPages
      reads buddies
    {
      forall y :: 0 <= y < totalPages && buddies[y].pow != old(buddies[y].pow) ==> Block(y, buddies[y].pow) in blocks
    }

    /** An order changed only in record x and in those of free blocks below it. */
    twostate predicate Lowered(x: nat)
      requires buddies.Length == totalPages
      reads this`lists, buddies
    {
      forall y: nat :: y < totalPages && buddies[y].pow != old(buddies[y].pow) ==>
        LowerStart(old(FreeBlocks()), x, y)
    }

    /** Unlink the head of list k. */
    method PopHead(k: nat)
      requires Shape() && k < MAX_BLOCK_POW && lists[k] != [] && Separate(lists)
      modifies this`lists, indices
      ensures Shape() && lists == old(lists)[k := old(lists[k])[1..]]
      ensures FreeBlocks() == old(FreeBlocks()) - {Block(old(lists[k][0]), k)}
    {
      Unlink(indices[..], buddies[..], lists, k, 0);
      ListHead(indices[..], buddies[..], lists, k);
      assert RemoveAt(lists[k], 0) == lists[k][1..];
      indices[k] := buddies[indices[k]].next;
      lists := lists[k := lists[k][1..]];
      assert indices[..] == old(indices[..])[k := buddies[old(lists[k][0])].next];
    }

    // lines 136-137 as written
    method TakeAndClear(pow: nat) returns (ret: nat)
      requires Shape() && pow < MAX_BLOCK_POW && lists[pow] != []
      modifies this`lists, indices
      ensures HasOrder(old(FreeBlocks()), pow)
      ensures Shape() && ret == Head(old(FreeBlocks()), pow).start < totalPages && buddies[ret].pow == pow
      ensures FreeBlocks() == old(FreeBlocks()) - OfOrder(old(FreeBlocks()), pow)
    {
      ListHead(indices[..], buddies[..], lists, pow);
      assert ListOk(indices[..], buddies[..], lists, pow) && NodeOk(buddies[..], lists[pow], pow, 0);
      ClearList(indices[..], buddies[..], lists, pow);
      ret := indices[pow];
      indices[pow] := -1;
      lists := lists[pow := []];
      assert indices[..] == old(indices[..])[pow := -1];
    }

    // lines 136-137 as intended, and lines 167-168
    method TakeHead(pow: nat) returns (ret: nat)
      requires Shape() && Sound(FreeBlocks(), totalPages) && pow < MAX_BLOCK_POW && lists[pow] != []
      modifies this`lists, indices
      ensures Shape() && ret == old(lists[pow][0]) < totalPages && buddies[ret].pow == pow
      ensures FreeBlocks() == old(FreeBlocks()) - {Block(ret, pow)}
    {
      ListHead(indices[..], buddies[..], lists, pow);
      assert ListOk(indices[..], buddies[..], lists, pow) && NodeOk(buddies[..], lists[pow], pow, 0);
      SoundSeparate(lists, totalPages);
      ret := indices[pow];
      PopHead(pow);
    }

    // one turn of the loop of lines 152-166: the block p of order j is halved
    method CarveOnce(ghost p: nat, j: nat, ghost pow: nat)
      requires Shape() && Sound(FreeBlocks(), totalPages) && pow < j < MAX_BLOCK_POW
      requires lists[j] != [] && lists[j][0] == p && forall k :: pow <= k < j ==> lists[k] == []
      modifies this`lists, indices, buddies
      ensures Shape() && Sound(FreeBlocks(), totalPages)
      ensures lists[j - 1] != [] && lists[j - 1][0] == p && forall k :: pow <= k < j - 1 ==> lists[k] == []
      ensures Split(FreeBlocks() - {Block(p, j - 1)}, p, j - 1, pow)
              == Split(old(FreeBlocks()) - {Block(p, j)}, p, j, pow)
      ensures End(Block(p, j - 1)) <= End(Block(p, j))
      ensures forall x :: 0 <= x < totalPages && !Holds(Block(p, j), x) ==> buddies[x] == old(buddies[x])
      ensures forall x :: 0 <= x < totalPages ==> buddies[x].used == old(buddies[x].used)
      ensures Recorded(FreeBlocks()) && old(FreeBlocks()) - {Block(p, j)} <= FreeBlocks()
      ensures Block(p, j - 1) in FreeBlocks() && buddies[p].pow == j - 1
    {
      hide Split, Linked, Sound, Pow2;
      CarveHead(lists, p, j);
      CutRest(FreeBlocks(), p, j, pow, totalPages);
      SplitOnce(j);
      FreeRecord(indices[..], buddies[..], lists, Block(p, j - 1));
      FreeRecord(indices[..], buddies[..], lists, Block(p + Pow2(j - 1), j - 1));
    }

    /** Lines 152-168: split the head of list i down to order pow and take the lowest piece. */
    method Carve(pow: nat, i: nat) returns (ret: nat)
      requires Shape() && Sound(FreeBlocks(), totalPages)
      requires pow <= i < MAX_BLOCK_POW && lists[i] != [] && forall k :: pow <= k < i ==> lists[k] == []
      modifies this`lists, indices, buddies
      ensures Shape() && ret == old(lists[i][0]) < totalPages
      ensures FreeBlocks() == Split(old(FreeBlocks()) - {Block(ret, i)}, ret, i, pow)
      ensures buddies[ret].pow == pow
      ensures forall x :: 0 <= x < totalPages && !Holds(Block(ret, i), x) ==> buddies[x] == old(buddies[x])
      ensures forall x :: 0 <= x < totalPages ==> buddies[x].used == old(buddies[x].used)
      ensures Recorded(FreeBlocks() + {Block(ret, pow)})
    {
      hide Split, Linked, Sound, Pow2;
      ghost var p := lists[i][0];
      var j := i;
      while j > pow
        invariant pow <= j <= i
        invariant Shape() && Sound(FreeBlocks(), totalPages)
        invariant lists[j] != [] && lists[j][0] == p && forall k :: pow <= k < j ==> lists[k] == []
        invariant Split(FreeBlocks() - {Block(p, j)}, p, j, pow) == Split(old(FreeBlocks()) - {Block(p, i)}, p, i, pow)
        invariant End(Block(p, j)) <= End(Block(p, i))
        invariant forall x :: 0 <= x < totalPages && !Holds(Block(p, i), x) ==> buddies[x] == old(buddies[x])
        invariant forall x :: 0 <= x < totalPages ==> buddies[x].used == old(buddies[x].used)
        invariant Recorded(FreeBlocks())
      {
        CarveOnce(p, j, pow);
        j := j - 1;
      }
      SplitNone(FreeBlocks() - {Block(p, pow)}, p, pow);
      ret := TakeHead(pow);
    }

    /** Everything but the page counter. */
    ghost predicate Core()
      reads this`lists, this`live, indices, buddies
    {
      Shape() && Placed(FreeBlocks(), live, Managed(totalPages)) && Flagged(buddies[..], live)
    }

    // lines 139-144: the smallest order above pow with a free block
    method FindOrder(pow: nat) returns (i: nat)
      requires Shape() && pow < MAX_BLOCK_POW && lists[pow] == []
      ensures i == Smallest(FreeBlocks(), pow) <= MAX_BLOCK_POW
      ensures forall k :: pow <= k < i ==> lists[k] == []
      ensures i < MAX_BLOCK_POW ==> lists[i] != [] && Head(FreeBlocks(), i) == Block(lists[i][0], i)
    {
      ListHead(indices[..], buddies[..], lists, pow);
      i := pow + 1;
      while i < MAX_BLOCK_POW
        invariant pow < i <= MAX_BLOCK_POW
        invariant forall k :: pow <= k < i ==> lists[k] == [] && !HasOrder(FreeBlocks(), k)
      {
        ListHead(indices[..], buddies[..], lists, i);
        if indices[i] != -1 {
          break;
        }
        i := i + 1;
      }
      SmallestIs(FreeBlocks(), pow, i);
    }

    /** The new block is flagged and recorded as live. */
    method MarkTaken(ret: nat, pow: nat, ghost was: State, r: Reading, ghost pages: seq<PageInfo>)
      requires Shape() && pow < MAX_BLOCK_POW && live == was.live && freePages == was.freePages
      requires Inv(was, totalPages) && !Exhausted(was.free, pow)
      requires Flagged(pages, live) && |pages| == totalPages
      requires ret == Source(was.free, pow).start && FreeBlocks() == FreeAfterAlloc(was.free, pow, r)
      requires ret < totalPages && buddies[ret].pow == pow
      requires forall x :: 0 <= x < totalPages && !Holds(Source(was.free, pow), x) ==> buddies[x] == pages[x]
      requires forall x :: 0 <= x < totalPages ==> buddies[x].used == pages[x].used
      modifies this`live, buddies
      ensures Core() && live == was.live + {Block(ret, pow)} && lists == old(lists)
      ensures forall x :: 0 <= x < totalPages ==> buddies[x].pow == old(buddies[x].pow)
    {
      TakenPlace(was, pow, r, totalPages);
      SetUsed(ret, true);
      live := live + {Block(ret, pow)};
      TakenFlags(was, pow, pages, buddies[..], totalPages);
    }

    /** buddy_alloc_index as written. None: no list of order pow or more holds a block, and the code
        reads and writes indices[12], past the end of the array. */
    method AllocIndex(pow: nat) returns (ret: Option<nat>)
      requires Valid() && pow < MAX_BLOCK_POW
      modifies this`lists, this`live, indices, buddies
      ensures ret.None? <==> Exhausted(old(FreeBlocks()), pow)
      ensures ret.None? ==> Valid() && Abs() == old(Abs())
      ensures ret.Some? ==>
                Core() && Abs().(freePages := freePages - Pow2(pow)) == AfterAlloc(old(Abs()), pow, AsWritten)
                            && ret.value == Source(old(FreeBlocks()), pow).start
      ensures buddies.Length == totalPages && Recorded(FreeBlocks() + live)
    {
      hide Linked, Flagged, Split, Coalesced, Sound, Weight, OfOrder, Pow2, Covers;
      ListHead(indices[..], buddies[..], lists, pow);
      FreeSound(FreeBlocks(), live, totalPages);
      var index;
      if indices[pow] != -1 {
        index := TakeAndClear(pow);
      } else {
        var i := FindOrder(pow);
        if i == MAX_BLOCK_POW {
          return None;
        }
        index := Carve(pow, i);
      }
      MarkTaken(index, pow, old(Abs()), AsWritten, old(buddies[..]));
      ret := Some(index);
    }

    /** buddy_alloc_index with line 137 keeping the tail of the list and lines 146-149 returning. */
    method AllocIndexIntended(pow: nat) returns (ret: int)
      requires Valid() && pow < MAX_BLOCK_POW
      modifies this`lists, this`live, indices, buddies
      ensures ret == -1 <==> Exhausted(old(FreeBlocks()), pow)
      ensures ret == -1 ==> Valid() && Abs() == old(Abs())
      ensures ret != -1 ==>
                Core() && Abs().(freePages := freePages - Pow2(pow)) == AfterAlloc(old(Abs()), pow, Intended)
                            && ret == Source(old(FreeBlocks()), pow).start
      ensures buddies.Length == totalPages && Recorded(FreeBlocks() + live)
    {
      hide Linked, Flagged, Coalesced, Sound, Weight, OfOrder, Pow2, Covers;
      ListHead(indices[..], buddies[..], lists, pow);
      FreeSound(FreeBlocks(), live, totalPages);
      if indices[pow] != -1 {
        ret := TakeHead(pow);
      } else {
        var i := FindOrder(pow);
        if i == MAX_BLOCK_POW {
          return -1;
        }
        ret := Carve(pow, i);
      }
      MarkTaken(ret, pow, old(Abs()), Intended, old(buddies[..]));
    }

    // buddy_aux_index2addr and buddy_aux_addr2index
    function Address(index: nat): nat {
      managedStart + index * PAGE_SIZE
    }

    function IndexOf(pa: nat): nat
      requires managedStart <= pa
    {
      (pa - managedStart) / PAGE_SIZE
    }

    /** An allocated address leads back to its block. */
    lemma AddressRoundTrip(index: nat)
      ensures managedStart <= Address(index) && IndexOf(Address(index)) == index
    {
      assert (Address(index) - managedStart) == index * 4096;
    }

    /** buddy_alloc as written: one step of a run, returning the address of the new live block. */
    method BuddyAlloc(pow: nat) returns (pa: Option<nat>)
      requires Valid() && pow < MAX_BLOCK_POW
      modifies this, indices, buddies
      ensures Valid()
      ensures Step(old(Abs()), Alloc(pow), AsWritten) == if pa.Some? then Some(Abs()) else None
      ensures pa.None? ==> Abs() == old(Abs())
      ensures pa.Some? ==> pa.value == Address(Source(old(FreeBlocks()), pow).start)
      ensures Recorded(FreeBlocks() + live)
    {
      hide Linked, Flagged, Split, Coalesced, Sound, Weight, OfOrder;
      if !Exhausted(FreeBlocks(), pow) { AllocKeeps(Abs(), pow, AsWritten, totalPages); }
      var index := AllocIndex(pow);
      if index.None? {
        return None;
      }
      freePages := freePages - Pow2(pow);
      pa := Some(Address(index.value));
    }

    /** buddy_alloc around the intended index allocation; None is the NULL of line 179. */
    method BuddyAllocIntended(pow: nat) returns (pa: Option<nat>)
      requires Valid() && pow < MAX_BLOCK_POW
      modifies this, indices, buddies
      ensures Valid()
      ensures Step(old(Abs()), Alloc(pow), Intended) == Some(Abs())
      ensures pa.None? <==> Exhausted(old(FreeBlocks()), pow)
      ensures pa.Some? ==> pa.value == Address(Source(old(FreeBlocks()), pow).start)
      ensures Recorded(FreeBlocks() + live)
    {
      hide Linked, Flagged, Split, Coalesced, Sound, Weight, OfOrder;
      if !Exhausted(FreeBlocks(), pow) { AllocKeeps(Abs(), pow, Intended, totalPages); }
      var index := AllocIndexIntended(pow);
      if index == -1 {
        return None;
      }
      freePages := freePages - Pow2(pow);
      pa := Some(Address(index));
    }

    // ----- freeing

    /** buddy_get_used: the flag of the block's first page, or a panic when its pages disagree. PastEnd: they
        agree up to the last record, and the loop reads on behind it. */
    method GetUsed(index: nat) returns (r: Check)
      requires index < buddies.Length
      ensures var b := Block(index, buddies[index].pow);
              && (r.Mixed? <==> Differs(buddies[..], b))
              && (r.PastEnd? ==> End(b) > buddies.Length)
              && (r.Uniform? ==> End(b) <= buddies.Length && r.used == buddies[index].used)
    {
      var pow := buddies[index].pow;
      var used := buddies[index].used;
      var i := 0;
      while i < Pow2(pow)
        invariant 0 <= i <= Pow2(pow) && index + i <= buddies.Length
        invariant forall p :: index <= p < index + i ==> buddies[p].used == used
      {
        if index + i == buddies.Length {
          return PastEnd;
        }
        if used != buddies[index + i].used {
          assert buddies[..][index + i] == buddies[index + i] && Holds(Block(index, pow), index + i);
          return Mixed;
        }
        i := i + 1;
      }
      return Uniform(used);
    }

    /** Find where x belongs on list k: position i - 1 is the last entry below x. */
    method FindPlace(k: nat, x: nat) returns (iterPre: int, iter: nat, ghost i: nat)
      requires Shape() && k < MAX_BLOCK_POW && lists[k] != [] && lists[k][0] < x && x !in lists[k]
      ensures 0 < i <= |lists[k]| && iter == lists[k][i - 1]
      ensures iterPre == if i == 1 then -1 else lists[k][i - 2]
      ensures forall j :: 0 <= j < i ==> lists[k][j] < x
      ensures forall j :: i <= j < |lists[k]| ==> x < lists[k][j]
      ensures iter < totalPages && buddies[iter].next == At(lists[k], i)
    {
      ListHead(indices[..], buddies[..], lists, k);
      assert ListOk(indices[..], buddies[..], lists, k);
      iterPre, iter, i := -1, indices[k], 1;
      while buddies[iter].next != -1 && x > buddies[iter].next
        invariant 0 < i <= |lists[k]| && iter == lists[k][i - 1]
        invariant iterPre == if i == 1 then -1 else lists[k][i - 2]
        invariant forall j :: 0 <= j < i ==> lists[k][j] < x
        invariant iter < totalPages && buddies[iter].next == At(lists[k], i)
        decreases |lists[k]| - i
      {
        assert NodeOk(buddies[..], lists[k], k, i);
        iterPre := iter;
        iter := buddies[iter].next;
        i := i + 1;
      }
    }

    /** What every list update of buddy_free_index leaves alone: used flags, and orders of other pages. */
    twostate predicate OnlyPow(x: int)
      requires buddies.Length == totalPages
      reads buddies
    {
      forall y :: 0 <= y < totalPages ==>
        buddies[y].used == old(buddies[y].used) && (y != x ==> buddies[y].pow == old(buddies[y].pow))
    }

    // lines 208-209: the first entry of list k is the upper half of the block at fb
    method MergeFirst(fb: nat, k: nat)
      requires Shape() && Separate(lists) && k < MAX_BLOCK_POW && lists[k] != [] && fb < totalPages
      requires !Listed(lists, fb) && buddies[fb].pow == k
      modifies this`lists, indices, buddies
      ensures Shape() && FreeBlocks() == old(FreeBlocks()) - {Block(old(lists[k][0]), k)}
      ensures buddies[fb].pow == k + 1 && OnlyPow(fb)
    {
      StillUnlisted(lists, k, 0, fb);
      ListHead(indices[..], buddies[..], lists, k);
      assert RemoveAt(lists[k], 0) == lists[k][1..];
      PopHead(k);
      buddies[fb] := buddies[fb].(pow := k + 1);
      LinkedFrame(indices[..], old(buddies[..]), buddies[..], lists);
    }

    // lines 202-203 and 211-212: fb goes in front of list k
    method InsertFirst(fb: nat, k: nat)
      requires Shape() && Separate(lists) && k < MAX_BLOCK_POW && fb < totalPages
      requires !Listed(lists, fb) && buddies[fb].pow == k
      requires lists[k] != [] ==> fb < lists[k][0]
      modifies this`lists, indices, buddies
      ensures Shape() && FreeBlocks() == old(FreeBlocks()) + {Block(fb, k)}
      ensures OnlyPow(-1)
    {
      ListHead(indices[..], buddies[..], lists, k);
      assert ListOk(indices[..], buddies[..], lists, k);
      Link(indices[..], buddies[..], lists, k, 0, fb);
      buddies[fb] := buddies[fb].(next := indices[k]);
      indices[k] := fb;
      lists := lists[k := InsertAt(lists[k], 0, fb)];
      assert buddies[..] == LinkPages(old(buddies[..]), old(lists), k, 0, fb);
      assert indices[..] == LinkHeads(old(indices[..]), k, 0, fb);
    }

    // lines 225-231: the entry before fb, iter, is the lower half
    method MergeBefore(fb: nat, k: nat, iterPre: int, iter: nat, ghost i: nat)
      requires Shape() && Separate(lists) && k < MAX_BLOCK_POW && 0 < i <= |lists[k]| && iter == lists[k][i - 1]
      requires iterPre == if i == 1 then -1 else lists[k][i - 2]
      modifies this`lists, indices, buddies
      ensures Shape() && FreeBlocks() == old(FreeBlocks()) - {Block(iter, k)}
      ensures iter < totalPages && buddies[iter].pow == k + 1 && OnlyPow(iter)
    {
      Unlink(indices[..], buddies[..], lists, k, i - 1);
      assert ListOk(indices[..], buddies[..], lists, k) && NodeOk(buddies[..], lists[k], k, 0);
      if iterPre == -1 {
        indices[k] := buddies[iter].next;
      } else {
        buddies[iterPre] := buddies[iterPre].(next := buddies[iter].next);
      }
      assert indices[..] == UnlinkHeads(old(indices[..]), old(buddies[..]), lists, k, i - 1);
      assert buddies[..] == UnlinkPages(old(buddies[..]), lists, k, i - 1);
      GoneFromLists(lists, k, i - 1);
      lists := lists[k := RemoveAt(lists[k], i - 1)];
      ghost var mid := buddies[..];
      buddies[iter] := buddies[iter].(pow := k + 1);
      LinkedFrame(indices[..], mid, buddies[..], lists);
    }

    // lines 237-238: the entry after iter is the upper half of the block at fb
    method MergeAfter(fb: nat, k: nat, iter: nat, ghost i: nat)
      requires Shape() && Separate(lists) && k < MAX_BLOCK_POW && 0 < i < |lists[k]| && iter == lists[k][i - 1]
      requires fb < totalPages && !Listed(lists, fb) && buddies[fb].pow == k
      modifies this`lists, indices, buddies
      ensures Shape() && FreeBlocks() == old(FreeBlocks()) - {Block(old(lists[k][i]), k)}
      ensures buddies[fb].pow == k + 1 && OnlyPow(fb)
    {
      Unlink(indices[..], buddies[..], lists, k, i);
      assert ListOk(indices[..], buddies[..], lists, k);
      assert NodeOk(buddies[..], lists[k], k, i - 1) && NodeOk(buddies[..], lists[k], k, i);
      buddies[iter] := buddies[iter].(next := buddies[buddies[iter].next].next);
      assert buddies[..] == UnlinkPages(old(buddies[..]), lists, k, i);
      lists := lists[k := RemoveAt(lists[k], i)];
      assert !Listed(lists, fb) by { StillUnlisted(old(lists), k, i, fb); }
      ghost var mid := buddies[..];
      buddies[fb] := buddies[fb].(pow := k + 1);
      LinkedFrame(indices[..], mid, buddies[..], lists);
    }

    // lines 243-244: fb goes after iter
    method InsertAfter(fb: nat, k: nat, iter: nat, ghost i: nat)
      requires Shape() && Separate(lists) && k < MAX_BLOCK_POW && 0 < i <= |lists[k]| && iter == lists[k][i - 1]
      requires fb < totalPages && !Listed(lists, fb) && buddies[fb].pow == k
      requires forall j :: 0 <= j < i ==> lists[k][j] < fb
      requires forall j :: i <= j < |lists[k]| ==> fb < lists[k][j]
      modifies this`lists, indices, buddies
      ensures Shape() && FreeBlocks() == old(FreeBlocks()) + {Block(fb, k)}
      ensures OnlyPow(-1)
    {
      Link(indices[..], buddies[..], lists, k, i, fb);
      assert ListOk(indices[..], buddies[..], lists, k) && NodeOk(buddies[..], lists[k], k, i - 1);
      buddies[fb] := buddies[fb].(next := buddies[iter].next);
      buddies[iter] := buddies[iter].(next := fb);
      lists := lists[k := InsertAt(lists[k], i, fb)];
      assert buddies[..] == LinkPages(old(buddies[..]), old(lists), k, i, fb);
    }

    /** Nothing about live blocks or used flags changed. */
    twostate predicate LiveKept(rest: set<Block>)
      requires buddies.Length == totalPages
      reads buddies
    {
      && (forall y :: 0 <= y < totalPages ==> buddies[y].used == old(buddies[y].used))
      && (forall c :: c in rest && c.start < totalPages ==> buddies[c.start].pow == old(buddies[c.start].pow))
    }

    /** One turn of the loop is over: the block is on its list, or it merged once. */
    twostate predicate Turned(rest: set<Block>, cur: Block, done: bool, next: nat)
      requires buddies.Length == totalPages
      reads this, indices, buddies
    {
      && Shape() && LiveKept(rest)
      && (done ==> Aligned(cur.start, cur.ord) && FreeBlocks() == Coalesce(old(FreeBlocks()), cur))
      && (!done ==> Grown(old(FreeBlocks()), FreeBlocks(), rest, cur, next, Managed(totalPages))
                    && next < totalPages && buddies[next].pow == cur.ord + 1
                    && FreeBlocks() <= old(FreeBlocks()) && LowerStart(old(FreeBlocks()), cur.start, next))
      && Lowered(cur.start)
    }

    // lines 236-245: the entry iter before the block is not its sibling
    method FreeAfter(freeBlock: nat, pow: nat, iter: nat, ghost i: nat, ghost rest: set<Block>)
      returns (done: bool, next: nat)
      requires Shape() && freeBlock < totalPages && pow == buddies[freeBlock].pow < MAX_BLOCK_POW
      requires Floating(FreeBlocks(), rest, Block(freeBlock, pow), Managed(totalPages))
      requires 0 < i <= |lists[pow]| && iter == lists[pow][i - 1]
      requires iter < totalPages && buddies[iter].next == At(lists[pow], i)
      requires forall j :: 0 <= j < i ==> lists[pow][j] < freeBlock
      requires forall j :: i <= j < |lists[pow]| ==> freeBlock < lists[pow][j]
      requires !Siblings(Block(iter, pow), Block(freeBlock, pow))
      modifies this`lists, indices, buddies
      ensures Turned(rest, Block(freeBlock, pow), done, next)
    {
      hide Coalesced, Sound, Pow2, Coalesce, Grown, Aligned;
      ghost var cur, n := Block(freeBlock, pow), Managed(totalPages);
      ManagedBound(totalPages);
      FloatingFacts(lists, rest, cur, n, totalPages);
      assert ListOk(indices[..], buddies[..], lists, pow);
      if buddies[iter].next != -1 {
        MergeableIffSiblings(freeBlock, buddies[iter].next, pow);
        if Mergeable(freeBlock, buddies[iter].next, pow) {
          MergeFloating(FreeBlocks(), rest, cur, Block(buddies[iter].next, pow), n);
          MergeAfter(freeBlock, pow, iter, i);
          return false, freeBlock;
        }
      }
      NoNeighbour(lists[pow], freeBlock, pow, i);
      CoalesceStep(FreeBlocks(), cur);
      InsertAfter(freeBlock, pow, iter, i);
      return true, freeBlock;
    }

    // lines 215-246: free_block lies past the head of its list
    method FreePastHead(freeBlock: nat, pow: nat, ghost rest: set<Block>) returns (done: bool, next: nat)
      requires Shape() && freeBlock < totalPages && pow == buddies[freeBlock].pow < MAX_BLOCK_POW
      requires Floating(FreeBlocks(), rest, Block(freeBlock, pow), Managed(totalPages))
      requires lists[pow] != [] && lists[pow][0] < freeBlock
      modifies this`lists, indices, buddies
      ensures Turned(rest, Block(freeBlock, pow), done, next)
    {
      hide Coalesced, Sound, Pow2, Coalesce, Grown, Aligned;
      ghost var cur, n := Block(freeBlock, pow), Managed(totalPages);
      ManagedBound(totalPages);
      FloatingFacts(lists, rest, cur, n, totalPages);
      assert ListOk(indices[..], buddies[..], lists, pow);
      assert freeBlock !in lists[pow];
      ghost var i;
      var iterPre, iter;
      iterPre, iter, i := FindPlace(pow, freeBlock);
      MergeableIffSiblings(iter, freeBlock, pow);
      if Mergeable(iter, freeBlock, pow) {
        MergeFloating(FreeBlocks(), rest, cur, Block(iter, pow), n);
        MergeBefore(freeBlock, pow, iterPre, iter, i);
        return false, iter;
      }
      done, next := FreeAfter(freeBlock, pow, iter, i, rest);
    }

    // lines 201-213: no entry of its list comes before the block
    method FreeFirst(freeBlock: nat, pow: nat, ghost rest: set<Block>) returns (done: bool, next: nat)
      requires Shape() && freeBlock < totalPages && pow == buddies[freeBlock].pow < MAX_BLOCK_POW
      requires Floating(FreeBlocks(), rest, Block(freeBlock, pow), Managed(totalPages))
      requires lists[pow] != [] ==> freeBlock < lists[pow][0]
      modifies this`lists, indices, buddies
      ensures Turned(rest, Block(freeBlock, pow), done, next)
    {
      hide Coalesced, Sound, Pow2, Coalesce, Grown, Aligned;
      ghost var cur, n := Block(freeBlock, pow), Managed(totalPages);
      ManagedBound(totalPages);
      FloatingFacts(lists, rest, cur, n, totalPages);
      ListHead(indices[..], buddies[..], lists, pow);
      assert ListOk(indices[..], buddies[..], lists, pow);
      if indices[pow] != -1 {
        MergeableIffSiblings(freeBlock, indices[pow], pow);
        if Mergeable(freeBlock, indices[pow], pow) {
          MergeFloating(FreeBlocks(), rest, cur, Block(indices[pow], pow), n);
          MergeFirst(freeBlock, pow);
          return false, freeBlock;
        }
      }
      NoNeighbour(lists[pow], freeBlock, pow, 0);
      CoalesceStep(FreeBlocks(), cur);
      InsertFirst(freeBlock, pow);
      return true, freeBlock;
    }

    // lines 198-247: one turn of the loop; done is a break, otherwise next carries on
    method FreeStep(freeBlock: nat, ghost rest: set<Block>) returns (done: bool, next: nat)
      requires Shape() && freeBlock < totalPages
      requires Floating(FreeBlocks(), rest, Block(freeBlock, buddies[freeBlock].pow), Managed(totalPages))
      modifies this`lists, indices, buddies
      ensures Turned(rest, Block(freeBlock, old(buddies[freeBlock].pow)), done, next)
    {
      hide Coalesced, Sound, Pow2, Coalesce, Grown, Aligned, Turned;
      var pow := buddies[freeBlock].pow;
      ghost var cur, n := Block(freeBlock, pow), Managed(totalPages);
      ManagedBound(totalPages);
      FloatingFacts(lists, rest, cur, n, totalPages);
      ListHead(indices[..], buddies[..], lists, pow);
      assert ListOk(indices[..], buddies[..], lists, pow);
      var list := indices[pow];
      if list == -1 || freeBlock < list {
        done, next := FreeFirst(freeBlock, pow, rest);
      } else {
        assert freeBlock !in lists[pow];
        done, next := FreePastHead(freeBlock, pow, rest);
      }
    }

    // lines 197-247: merge the block with its free sibling, order by order, until none is listed
    method FreeLoop(index: nat, ghost rest: set<Block>)
      requires Shape() && index < totalPages
      requires Floating(FreeBlocks(), rest, Block(index, buddies[index].pow), Managed(totalPages))
      modifies this`lists, indices, buddies
      ensures Shape() && LiveKept(rest) && Lowered(index)
      ensures FreeBlocks() == Coalesce(old(FreeBlocks()), Block(index, old(buddies[index].pow)))
    {
      hide Linked, Floating, Coalesce, Sound, Coalesced, Aligned, Pow2, FreeSet, Managed;
      var freeBlock: nat, done := index, false;
      ghost var ord: nat := buddies[index].pow;
      FloatingPlaced(FreeBlocks(), rest, Block(index, ord), Managed(totalPages));
      while !done
        invariant Shape() && freeBlock < totalPages
        invariant !done ==> ord == buddies[freeBlock].pow
                            && Floating(FreeBlocks(), rest, Block(freeBlock, ord), Managed(totalPages))
        invariant ord <= MAX_BLOCK_POW && Aligned(freeBlock, ord)
        invariant done ==> FreeBlocks() == Coalesce(old(FreeBlocks()), Block(index, old(buddies[index].pow)))
        invariant !done ==> Coalesce(FreeBlocks(), Block(freeBlock, ord))
                            == Coalesce(old(FreeBlocks()), Block(index, old(buddies[index].pow)))
        invariant LiveKept(rest) && Lowered(index) && LowerStart(old(FreeBlocks()), index, freeBlock)
        invariant !done ==> FreeBlocks() <= old(FreeBlocks())
        decreases !done, MAX_BLOCK_POW - ord
      {
        var next: nat;
        done, next := FreeStep(freeBlock, rest);
        if !done {
          freeBlock := next;
          ord := ord + 1;
        }
      }
    }

    /** buddy_free_index of a page whose record says that pages in use follow. The record may be a stale one,
        inside a live block; the pages are then free and live. */
    method FreeIndex(index: nat) returns (ret: nat)
      requires Valid() && index < totalPages && Aligned(index, buddies[index].pow)
      requires AllLive(live, Block(index, buddies[index].pow))
      modifies this`lists, this`live, indices, buddies
      ensures ret == old(buddies[index].pow) && Shape() && Lowered(index)
      ensures FreeBlocks() == Coalesce(old(FreeBlocks()), Block(index, ret)) && live == old(live) - {Block(index, ret)}
      ensures Block(index, ret) in old(live) ==> Core()
    {
      hide Linked, Flagged, Coalesce, Coalesced, Sound;
      ret := buddies[index].pow;
      ghost var b := Block(index, ret);
      ghost var rest := Apart(live, b);
      StartFree(FreeBlocks(), live, b, totalPages);
      SetUsed(index, false);
      if b in live { FlagsDropped(old(buddies[..]), buddies[..], live, b, Managed(totalPages)); }
      live := live - {b};
      ghost var flags := buddies[..];
      FreeLoop(index, rest);
      if b in old(live) {
        FinishFree(old(FreeBlocks()), old(live), b, totalPages);
        FlagsKeptFlagged(flags, buddies[..], live);
      }
    }

    // lines 256-259: Uniform(true) lets the call go on, Mixed and Uniform(false) panic
    method CheckUsed(index: nat) returns (r: Check)
      requires Core() && index < totalPages
      ensures var b := Block(index, buddies[index].pow);
              && (r == Uniform(true) <==> AllLive(live, b))
              && (r.Mixed? || r == Uniform(false) <==> CheckPanics(live, b, totalPages))
              && (r.PastEnd? ==> End(b) > totalPages)
    {
      ghost var b := Block(index, buddies[index].pow);
      LiveIsAllLive(FreeBlocks(), live, b, totalPages);
      CheckMeans(buddies[..], live, b, totalPages);
      hide Linked, Flagged, Placed, Sound, Pow2, Differs, AllLive, CheckPanics;
      r := GetUsed(index);
    }

    /** buddy_free of any managed page. On a live block it is one step of a run. On a page that is not in use it
        panics, unless the record of the page reaches behind the last one. On an interior page of a live block
        the record is stale: the call goes through exactly when all its pages are live, and then frees them
        although the block that holds them is still live. */
    method BuddyFree(pa: nat) returns (r: FreeResult)
      requires Valid() && managedStart <= pa && IndexOf(pa) < totalPages
      modifies this, indices, buddies
      ensures var b := Block(IndexOf(pa), old(buddies[IndexOf(pa)].pow));
              && (r.Freed? <==> AllLive(old(live), b) && Aligned(b.start, b.ord))
              && (r.Panic? <==> CheckPanics(old(live), b, totalPages))
              && (!r.Freed? ==> Valid() && Abs() == old(Abs()))
              && (b in old(live) ==> r.Freed? && Valid() && Step(old(Abs()), Free(b.start), AsWritten) == Some(Abs()))
              && (r.Freed? && b !in old(live) ==> Shape() && FreedInside(old(Abs()), Abs(), b))
      ensures Shape() && Lowered(IndexOf(pa))
    {
      hide Linked, Flagged, Coalesce, Coalesced, Sound, Weight;
      var index := IndexOf(pa);
      ghost var b := Block(index, buddies[index].pow);
      LiveIsAllLive(FreeBlocks(), live, b, totalPages);
      var check := CheckUsed(index);
      if check.Mixed? || check == Uniform(false) {
        return Panic;
      }
      if check.PastEnd? || !Aligned(index, buddies[index].pow) {
        return Undefined;
      }
      if b in live {
        FreeKeeps(Abs(), b, totalPages);
        FreeStepIs(Abs(), b, totalPages);
      } else {
        InsideBoth(Abs(), b, totalPages);
      }
      var p := FreeIndex(index);
      freePages := freePages + Pow2(p);
      r := Freed;
    }

    /** The owner data of the page at an address. */
    function AdatAt(pa: nat): int
      requires managedStart <= pa && IndexOf(pa) < adats.Length
      reads adats
    {
      adats[IndexOf(pa)]
    }

    /** The addresses of a block are those of its pages. */
    lemma BlockAddresses(b: Block, pa: nat)
      requires managedStart <= pa
      ensures Holds(b, IndexOf(pa)) <==> Address(b.start) <= pa < Address(b.start) + Pow2(b.ord) * PAGE_SIZE
    {
      var off := pa - managedStart;
      assert off == PAGE_SIZE * IndexOf(pa) + off % PAGE_SIZE;
    }

    // buddy_set_adat and buddy_set_adat_index
    method SetAdat(pa: nat, adat: int)
      requires Valid() && managedStart <= pa && IndexOf(pa) < totalPages
      requires IndexOf(pa) + Pow2(buddies[IndexOf(pa)].pow) <= totalPages
      modifies adats
      ensures var first, bytes := Address(IndexOf(pa)), Pow2(buddies[IndexOf(pa)].pow) * PAGE_SIZE;
              forall a: nat :: managedStart <= a && IndexOf(a) < totalPages ==>
                AdatAt(a) == if first <= a < first + bytes then adat else old(AdatAt(a))
      ensures SetPages(IndexOf(pa), adat)
    {
      hide Linked, Flagged, Pow2, Weight, Coalesced, Sound;
      var index := IndexOf(pa);
      var pow := buddies[index].pow;
      var i := 0;
      while i < Pow2(pow)
        invariant 0 <= i <= Pow2(pow)
        invariant forall p :: 0 <= p < totalPages ==>
                    adats[p] == if index <= p < index + i then adat else old(adats[p])
      {
        adats[index + i] := adat;
        i := i + 1;
      }
      forall a: nat | managedStart <= a && IndexOf(a) < totalPages
        ensures Holds(Block(index, pow), IndexOf(a)) <==> Address(index) <= a < Address(index) + Pow2(pow) * PAGE_SIZE
      {
        BlockAddresses(Block(index, pow), a);
      }
    }

    /** The pages of the block at index have this owner data, and the others what they had. */
    twostate predicate SetPages(index: nat, adat: int)
      requires buddies.Length == adats.Length == totalPages && index < totalPages
      reads buddies, adats
    {
      forall p :: 0 <= p < totalPages ==>
        adats[p] == if Holds(Block(index, buddies[index].pow), p) then adat else old(adats[p])
    }

    // buddy_get_adat
    method GetAdat(pa: nat) returns (adat: int)
      requires Valid() && managedStart <= pa && IndexOf(pa) < totalPages
      ensures adat == AdatAt(pa)
    {
      adat := adats[IndexOf(pa)];
    }
  }

  // ----- a free inside a live block

  /** Four pages: page 0 is taken alone and given back, then pages 0 and 1 are taken together. The record of page
      1 still says order 0. */
  method StaleRecord(start: nat, records: seq<PageInfo>) returns (b: BuddySystem)
    requires |records| == 4
    ensures fresh(b) && fresh(b.indices) && fresh(b.buddies)
    ensures b.totalPages == 4 && b.Valid() && b.Abs() == Four(2) && b.buddies[1].pow == 0
  {
    hide InitState, Step, Linked, Flagged, Coalesce, Placed, Sound, Split, Weight, Leak, Exhausted, AllLive,
      CheckPanics, FreedInside, FreeSet, Aligned, Covers;
    FourSteps(4);
    b := new BuddySystem(start, 4, records);
    b.AddressRoundTrip(0);
    var first := b.BuddyAlloc(0);
    assert b.Abs() == Four(1) && first.Some?;
    FreeRecord(b.indices[..], b.buddies[..], b.lists, Block(1, 0));
    LiveOrder(b.buddies[..], b.live, Block(0, 0));
    var freed := b.BuddyFree(b.Address(0));
    assert b.Abs() == Four(0);
    var second := b.BuddyAlloc(1);
  }

  /** The page of that record is in use, so buddy_free of page 1 goes through. Page 1 is then on a free list and in
      a live block. */
  method FreeInsideLiveBlock(start: nat, records: seq<PageInfo>) returns (b: BuddySystem, r: FreeResult)
    requires |records| == 4
    ensures r.Freed? && b.Shape() && b.live == {Block(0, 1)} && Block(1, 0) in b.FreeBlocks()
  {
    hide Linked, Flagged, Coalesce, Placed, Sound, Weight, Leak, AllLive, CheckPanics, Aligned, Covers, Step, FreeSet,
      BuddySystem.Lowered;
    StaleFree();
    b := StaleRecord(start, records);
    b.AddressRoundTrip(1);
    r := b.BuddyFree(b.Address(1));
  }

  lemma LiveOrder(pages: seq<PageInfo>, live: set<Block>, b: Block)
    requires Flagged(pages, live) && b in live
    ensures b.start < |pages| && pages[b.start].pow == b.ord
  {}

  lemma StaleFree()
    ensures var s, b := Four(2), Block(1, 0);
            AllLive(s.live, b) && Aligned(1, 0) && b !in s.live && b in Coalesce(s.free, b)
  {
    var s, b := Four(2), Block(1, 0);
    forall p | Holds(b, p) ensures Covers(s.live, p) { assert Holds(Block(0, 1), p); }
    assert Sibling(b) == Block(0, 0);
  }
}
