/** Whole runs of the buddy allocator, in two readings of kernel/buddy.c.
    AsWritten: an allocation served by a non-empty list empties that list (line 137), and a request
    no list can serve goes on to index past the end of `indices` (lines 146-153).
    Intended: the list keeps its tail, as line 168 does, and such a request returns -1. */
module BuddyRuns {
  import opened Readings
  import opened Collections
  import opened Bits
  import opened BuddyBlocks

  datatype Op = Alloc(pow: nat) | Free(index: nat)

  datatype State = State(free: set<Block>, live: set<Block>, freePages: int)

  // ----- initial state

  /** The blocks that the initialisation loop lists for orders k-1 down to 0, from page cur on. */
  ghost function InitFrom(total: nat, k: nat, cur: nat): set<Block> {
    if k == 0 then {}
    else if And(total, Pow2(k - 1)) != 0 then
      {Block(cur, k - 1)} + InitFrom(total, k - 1, cur + Pow2(k - 1))
    else InitFrom(total, k - 1, cur)
  }

  ghost function InitBlocks(total: nat): set<Block> {
    InitFrom(total, MAX_BLOCK_POW, 0)
  }

  ghost function InitState(total: nat): State {
    State(InitBlocks(total), {}, total)
  }

  /** Only the low twelve bits of the page count are ever listed. */
  ghost function Managed(total: nat): nat {
    Low(total, MAX_BLOCK_POW)
  }

  lemma ManagedBound(total: nat)
    ensures Managed(total) < Pow2(MAX_BLOCK_POW) == 4096
    ensures Managed(total) <= total
    ensures total < 4096 ==> Managed(total) == total
  {
    LowBound(total, MAX_BLOCK_POW);
    assert Pow2(6) == 64;
    assert Pow2(9) == 512;
  }

  lemma BitStep(total: nat, k: nat, cur: nat)
    requires 0 < k && Aligned(cur, k)
    ensures Aligned(cur, k - 1) && Aligned(cur + Pow2(k - 1), k - 1)
    ensures Low(total, k) == Low(total, k - 1) + if And(total, Pow2(k - 1)) != 0 then Pow2(k - 1) else 0
  {
    AndPow2(total, k - 1);
    LowStep(total, k - 1);
    AlignedDown(cur, k, k - 1);
    AlignedAdd(cur, k - 1, k - 1);
  }

  lemma {:induction false} InitFromSound(total: nat, k: nat, cur: nat)
    requires k <= MAX_BLOCK_POW && Aligned(cur, k)
    ensures Sound(InitFrom(total, k, cur), cur + Low(total, k))
    ensures forall b :: b in InitFrom(total, k, cur) ==> b.ord < k && cur <= b.start
    ensures Coalesced(InitFrom(total, k, cur))
    decreases k
  {
    if k != 0 {
      BitStep(total, k, cur);
      InitFromSound(total, k - 1, InitNext(total, k, cur));
    }
  }

  /** The page position after the bit for order k - 1 was looked at. */
  ghost function InitNext(total: nat, k: nat, cur: nat): nat
    requires k > 0
  {
    if And(total, Pow2(k - 1)) != 0 then cur + Pow2(k - 1) else cur
  }

  lemma {:induction false} InitFromPages(total: nat, k: nat, cur: nat)
    requires k <= MAX_BLOCK_POW && Aligned(cur, k)
    ensures forall p :: Covers(InitFrom(total, k, cur), p) <==> cur <= p < cur + Low(total, k)
    ensures Weight(InitFrom(total, k, cur)) == Low(total, k)
    decreases k
  {
    hide Pow2, And, Aligned, Covers, Holds;
    if k == 0 {
      NoPages(cur);
    } else {
      BitStep(total, k, cur);
      var next := InitNext(total, k, cur);
      var rest := InitFrom(total, k - 1, next);
      InitFromPages(total, k - 1, next);
      if And(total, Pow2(k - 1)) != 0 {
        InitFromSound(total, k - 1, next);
        FirstBlock(rest, Block(cur, k - 1), next, Low(total, k - 1));
      }
    }
  }

  lemma {:induction false} NoPages(cur: nat)
    ensures forall p :: Covers({}, p) <==> cur <= p < cur + 0
    ensures Weight({}) == 0
  {}

  /** One more block in front of the pages already covered. */
  lemma {:induction false} FirstBlock(rest: set<Block>, b: Block, next: nat, len: nat)
    requires next == End(b) && (forall c :: c in rest ==> c.ord < b.ord && next <= c.start)
    requires (forall p :: Covers(rest, p) <==> next <= p < next + len) && Weight(rest) == len
    ensures forall p :: Covers({b} + rest, p) <==> b.start <= p < next + len
    ensures Weight({b} + rest) == Pow2(b.ord) + len
  {
    assert {b} + rest == rest + {b};
    WeightAdd(rest, b);
    forall p ensures Covers({b} + rest, p) <==> b.start <= p < next + len { CoversAdd(rest, b, p); }
  }

  // ----- steps

  ghost function OfOrder(free: set<Block>, k: nat): set<Block> {
    set b | b in free && b.ord == k
  }

  ghost predicate Exhausted(free: set<Block>, pow: nat)
    requires pow < MAX_BLOCK_POW
  {
    Smallest(free, pow) == MAX_BLOCK_POW
  }

  /** The block split, or handed out whole, to serve a request. */
  ghost function Source(free: set<Block>, pow: nat): Block
    requires pow < MAX_BLOCK_POW && !Exhausted(free, pow)
  {
    Head(free, Smallest(free, pow))
  }

  ghost function FreeAfterAlloc(free: set<Block>, pow: nat, r: Reading): set<Block>
    requires pow < MAX_BLOCK_POW && !Exhausted(free, pow)
  {
    var h := Source(free, pow);
    if r.AsWritten? && HasOrder(free, pow) then free - OfOrder(free, pow)
    else Split(free - {h}, h.start, h.ord, pow)
  }

  ghost function AfterAlloc(s: State, pow: nat, r: Reading): State
    requires pow < MAX_BLOCK_POW && !Exhausted(s.free, pow)
  {
    State(FreeAfterAlloc(s.free, pow, r),
          s.live + {Block(Source(s.free, pow).start, pow)},
          s.freePages - Pow2(pow))
  }

  ghost function AfterFree(s: State, b: Block): State
    requires Aligned(b.start, b.ord)
  {
    State(Coalesce(s.free, b), s.live - {b}, s.freePages + Pow2(b.ord))
  }

  ghost predicate LiveAt(s: State, index: nat, b: Block) {
    b in s.live && b.start == index && Aligned(b.start, b.ord)
  }

  /** None: the caller breaks the contract (an order of 12 or more, a page that starts no live block),
      or, as written, the code reads past the end of `indices`. */
  ghost function Step(s: State, op: Op, r: Reading): Option<State> {
    match op
    case Alloc(pow) =>
      if pow >= MAX_BLOCK_POW then None
      else if Exhausted(s.free, pow) then (if r.Intended? then Some(s) else None)
      else Some(AfterAlloc(s, pow, r))
    case Free(index) =>
      if b :| LiveAt(s, index, b) then Some(AfterFree(s, b)) else None
  }

  ghost function Run(s: State, ops: seq<Op>, r: Reading): Option<State>
    decreases |ops|
  {
    if ops == [] then Some(s)
    else
      match Step(s, ops[0], r)
      case None => None
      case Some(t) => Run(t, ops[1..], r)
  }

  ghost predicate Placed(free: set<Block>, live: set<Block>, n: nat) {
    Sound(free + live, n) && free !! live && Coalesced(free)
  }

  /** What every step keeps: free and live blocks are aligned, in range and pairwise disjoint,
      no two free blocks could be merged, and the page count accounts for every live block. */
  ghost predicate Inv(s: State, total: nat) {
    && Placed(s.free, s.live, Managed(total))
    && s.freePages + Weight(s.live) == total
  }

  /** Every managed page belongs to a free or a live block. */
  ghost predicate Complete(s: State, total: nat) {
    forall p :: 0 <= p < Managed(total) ==> Covers(s.free + s.live, p)
  }

  /** Pages counted as free that no list leads to. */
  ghost function Leak(s: State, total: nat): int {
    s.freePages - Weight(s.free) - (total - Managed(total))
  }

  /** Allocations that lose nothing as written: the list that serves them has no second block. */
  ghost predicate Benign(s: State, op: Op) {
    op.Alloc? && op.pow < MAX_BLOCK_POW && HasOrder(s.free, op.pow)
    ==> OfOrder(s.free, op.pow) == {Head(s.free, op.pow)}
  }

  ghost predicate BenignRun(s: State, ops: seq<Op>)
    decreases |ops|
  {
    ops == []
    || (Benign(s, ops[0])
        && (Step(s, ops[0], AsWritten).Some? ==> BenignRun(Step(s, ops[0], AsWritten).value, ops[1..])))
  }

  lemma InitInv(total: nat)
    ensures Inv(InitState(total), total) && Complete(InitState(total), total) && Leak(InitState(total), total) == 0
  {
    InitFromSound(total, MAX_BLOCK_POW, 0);
    InitFromPages(total, MAX_BLOCK_POW, 0);
    ManagedBound(total);
    assert InitBlocks(total) + {} == InitBlocks(total);
  }

  /** The initial lists hold every page exactly when fewer than 4096 are managed. */
  lemma InitCoversAllIffSmall(total: nat)
    ensures (forall p :: 0 <= p < total ==> Covers(InitBlocks(total), p)) <==> total < 4096
  {
    InitFromSound(total, MAX_BLOCK_POW, 0);
    InitFromPages(total, MAX_BLOCK_POW, 0);
    ManagedBound(total);
    if total >= 4096 {
      var p := Managed(total);
      assert p < total && !Covers(InitBlocks(total), p);
    }
  }

  // ----- one step

  lemma AllocKeeps(s: State, pow: nat, r: Reading, total: nat)
    requires Inv(s, total) && pow < MAX_BLOCK_POW && !Exhausted(s.free, pow)
    ensures Inv(AfterAlloc(s, pow, r), total)
    ensures r.Intended? && Complete(s, total) ==> Complete(AfterAlloc(s, pow, r), total)
    ensures Leak(AfterAlloc(s, pow, r), total) >= Leak(s, total)
    ensures Leak(AfterAlloc(s, pow, r), total) == Leak(s, total) <==> r.Intended? || Benign(s, Alloc(pow))
    ensures r.AsWritten? && Benign(s, Alloc(pow)) ==> AfterAlloc(s, pow, r) == AfterAlloc(s, pow, Intended)
  {
    var n := Managed(total);
    var h := Source(s.free, pow);
    var t := AfterAlloc(s, pow, Intended);
    var taken := Block(h.start, pow);
    var f := s.free - {h};
    assert f + s.live + {h} == s.free + s.live;
    SplitKeeps(f, s.live, h.start, h.ord, pow, n);
    assert t.free + t.live == t.free + s.live + {taken};
    WeightAdd(s.live, taken);
    WeightRemove(s.free, h);
    SoundSubset(f + {h}, s.free + s.live, n);
    SplitWeight(f, h.start, h.ord, pow, n);
    if Complete(s, total) { AllocComplete(s, pow, total); }
    if r.AsWritten? && HasOrder(s.free, pow) {
      var u := AfterAlloc(s, pow, r);
      assert h == taken && t.free == f;
      assert u.free <= f;
      WeightSubset(u.free, f);
      SoundSubset(u.free + u.live, t.free + t.live, n);
      assert OfOrder(s.free, pow) == {h} <==> u.free == f;
    }
  }

  lemma AllocComplete(s: State, pow: nat, total: nat)
    requires Inv(s, total) && pow < MAX_BLOCK_POW && !Exhausted(s.free, pow)
    requires Complete(s, total)
    ensures Complete(AfterAlloc(s, pow, Intended), total)
  {
    var h := Source(s.free, pow);
    var t := AfterAlloc(s, pow, Intended);
    var f, taken := s.free - {h}, Block(h.start, pow);
    assert f + s.live + {h} == s.free + s.live;
    SplitKeeps(f, s.live, h.start, h.ord, pow, Managed(total));
    forall p | 0 <= p < Managed(total) ensures Covers(t.free + t.live, p) {
      CoversUnion(s.free, s.live, p);
      CoversRemove(s.free, h, p);
      CoversUnion(t.free, t.live, p);
      CoversAdd(s.live, taken, p);
    }
  }

  lemma CoversUnion(a: set<Block>, b: set<Block>, p: int)
    ensures Covers(a + b, p) <==> Covers(a, p) || Covers(b, p)
  {
    if Covers(a, p) { var x :| x in a && Holds(x, p); assert x in a + b; }
    if Covers(b, p) { var x :| x in b && Holds(x, p); assert x in a + b; }
  }

  lemma FreeKeeps(s: State, b: Block, total: nat)
    requires Inv(s, total) && b in s.live
    ensures Aligned(b.start, b.ord)
    ensures Inv(AfterFree(s, b), total)
    ensures Complete(s, total) ==> Complete(AfterFree(s, b), total)
    ensures Leak(AfterFree(s, b), total) == Leak(s, total)
  {
    var n := Managed(total);
    var rest := s.live - {b};
    var t := AfterFree(s, b);
    ManagedBound(total);
    assert s.free + s.live == s.free + rest + {b};
    assert b in s.free + s.live;
    CoalesceKeeps(s.free, rest, b, n);
    WeightRemove(s.live, b);
    forall x | x in s.free ensures Disjoint(x, b) { assert x in s.free + s.live; }
    forall x, y | x in s.free && y in s.free && x != y ensures Disjoint(x, y) { assert x in s.free + s.live; }
    CoalesceWeight(s.free, b);
    if Complete(s, total) {
      forall p | 0 <= p < n ensures Covers(t.free + t.live, p) {
        CoversUnion(s.free, s.live, p);
        CoversRemove(s.live, b, p);
        CoversUnion(t.free, t.live, p);
      }
    }
  }

  lemma LiveBlockUnique(s: State, total: nat, a: Block, b: Block)
    requires Inv(s, total) && a in s.live && b in s.live && a.start == b.start
    ensures a == b
  {
    assert a in s.free + s.live && b in s.free + s.live;
  }

  lemma StepKeeps(s: State, op: Op, r: Reading, total: nat)
    requires Inv(s, total) && Step(s, op, r).Some?
    ensures var t := Step(s, op, r).value;
            && Inv(t, total)
            && (r.Intended? && Complete(s, total) ==> Complete(t, total))
            && Leak(t, total) >= Leak(s, total)
            && (Leak(t, total) == Leak(s, total) <==> r.Intended? || Benign(s, op))
            && (Benign(s, op) ==> Step(s, op, Intended) == Some(t))
  {
    match op
    case Alloc(pow) =>
      if !Exhausted(s.free, pow) { AllocKeeps(s, pow, r, total); }
    case Free(index) =>
      var t := Step(s, op, r).value;
      var b :| LiveAt(s, index, b) && t == AfterFree(s, b);
      FreeKeeps(s, b, total);
  }

  // ----- runs

  /** Safety of every run in either reading: free and live blocks never overlap, nothing mergeable
      stays unmerged, and free_pages plus the live pages is the total. */
  lemma {:induction false} RunKeeps(s: State, ops: seq<Op>, r: Reading, total: nat)
    requires Inv(s, total) && Run(s, ops, r).Some?
    ensures var t := Run(s, ops, r).value;
            && Inv(t, total)
            && (r.Intended? && Complete(s, total) ==> Complete(t, total))
            && Leak(t, total) >= Leak(s, total)
    decreases |ops|
  {
    if ops != [] {
      StepKeeps(s, ops[0], r, total);
      RunKeeps(Step(s, ops[0], r).value, ops[1..], r, total);
    }
  }

  /** Completeness: in every state an intended run reaches, a request is refused exactly when no
      aligned run of that many free pages exists, a page being free when no live block holds it. */
  lemma {:induction false} RefusedIffNoRun(total: nat, ops: seq<Op>, pow: nat)
    requires Run(InitState(total), ops, Intended).Some? && pow < MAX_BLOCK_POW
    ensures var s := Run(InitState(total), ops, Intended).value;
            Exhausted(s.free, pow)
            <==> !exists p: nat :: NotLiveRun(s, p, pow, Managed(total))
  {
    InitInv(total);
    RunKeeps(InitState(total), ops, Intended, total);
    var s := Run(InitState(total), ops, Intended).value;
    WrongIffLostRun(s, total, pow);
    forall p: nat ensures !LostRun(s, p, pow, Managed(total)) {}
  }

  /** An aligned run of managed pages that no live block touches. */
  ghost predicate NotLiveRun(s: State, p: nat, pow: nat, n: nat) {
    && Aligned(p, pow) && p + Pow2(pow) <= n
    && forall x :: Holds(Block(p, pow), x) ==> !Covers(s.live, x)
  }

  /** No list leads to page p, and no live block holds it. */
  ghost predicate Lost(s: State, p: int) {
    !Covers(s.free + s.live, p)
  }

  /** An aligned run of managed pages that are free or lost, at least one of them lost. */
  ghost predicate LostRun(s: State, p: nat, pow: nat, n: nat) {
    && Aligned(p, pow) && p + Pow2(pow) <= n
    && (forall x :: Holds(Block(p, pow), x) ==> Covers(s.free, x) || Lost(s, x))
    && exists x :: Holds(Block(p, pow), x) && Lost(s, x)
  }

  /** A request is refused although a run is free of live blocks: exactly when no list can serve it and an aligned
      run with a lost page could. A request that some list can serve is never refused. */
  lemma WrongIffLostRun(s: State, total: nat, pow: nat)
    requires Inv(s, total) && pow < MAX_BLOCK_POW
    ensures !Exhausted(s.free, pow) ==> exists p: nat :: NotLiveRun(s, p, pow, Managed(total))
    ensures Exhausted(s.free, pow) ==>
              forall p: nat :: NotLiveRun(s, p, pow, Managed(total)) <==> LostRun(s, p, pow, Managed(total))
  {
    var n := Managed(total);
    SoundSubset(s.free, s.free + s.live, n);
    RequestMetIffRunExists(s.free, pow, n);
    forall p: nat
      ensures NotLiveRun(s, p, pow, n) <==> FreeRun(s.free, p, pow) || LostRun(s, p, pow, n)
    {
      RunFreeOrLost(s, p, pow, total);
    }
  }

  lemma RunFreeOrLost(s: State, p: nat, pow: nat, total: nat)
    requires Inv(s, total)
    ensures NotLiveRun(s, p, pow, Managed(total)) <==> FreeRun(s.free, p, pow) || LostRun(s, p, pow, Managed(total))
  {
    var run, n := Block(p, pow), Managed(total);
    hide Aligned, Pow2;
    HoldsStart(run);
    forall x ensures Lost(s, x) <==> !Covers(s.free, x) && !Covers(s.live, x) { CoversUnion(s.free, s.live, x); }
    forall x | Covers(s.free, x) ensures 0 <= x < n && !Covers(s.live, x) { FreeNotLive(s, x, total); }
    if FreeRun(s.free, p, pow) { assert Covers(s.free, End(run) - 1); }
  }

  lemma FreeNotLive(s: State, p: int, total: nat)
    requires Inv(s, total) && Covers(s.free, p)
    ensures 0 <= p < Managed(total) && !Covers(s.live, p)
  {
    var b :| b in s.free && Holds(b, p);
    assert b in s.free + s.live;
    assert forall c :: c in s.live ==> c in s.free + s.live;
  }

  /** Completeness as written, exactly: in every state a run reaches, refusals of an order are right exactly when
      some list can serve it or no aligned run with a lost page could. */
  lemma {:induction false} RefusedRightIff(total: nat, ops: seq<Op>, pow: nat)
    requires Run(InitState(total), ops, AsWritten).Some? && pow < MAX_BLOCK_POW
    ensures var s, n := Run(InitState(total), ops, AsWritten).value, Managed(total);
            (Exhausted(s.free, pow) <==> !exists p: nat :: NotLiveRun(s, p, pow, n))
            <==> !Exhausted(s.free, pow) || !exists p: nat :: LostRun(s, p, pow, n)
  {
    InitInv(total);
    RunKeeps(InitState(total), ops, AsWritten, total);
    WrongIffLostRun(Run(InitState(total), ops, AsWritten).value, total, pow);
  }

  /** A run as written that loses nothing is complete at every order. */
  lemma {:induction false} BenignComplete(total: nat, ops: seq<Op>, pow: nat)
    requires Run(InitState(total), ops, AsWritten).Some? && BenignRun(InitState(total), ops) && pow < MAX_BLOCK_POW
    ensures var s := Run(InitState(total), ops, AsWritten).value;
            Exhausted(s.free, pow) <==> !exists p: nat :: NotLiveRun(s, p, pow, Managed(total))
  {
    InitInv(total);
    LeakIffNotBenign(InitState(total), ops, total);
    RefusedIffNoRun(total, ops, pow);
  }

  /** Single pages: refusing one is right exactly when a list has a block or the page counter is down to the pages
      that were never listed. */
  lemma {:induction false} PageRefusedRightIff(total: nat, ops: seq<Op>)
    requires Run(InitState(total), ops, AsWritten).Some?
    ensures var s, n := Run(InitState(total), ops, AsWritten).value, Managed(total);
            (Exhausted(s.free, 0) <==> !exists p: nat :: NotLiveRun(s, p, 0, n))
            <==> s.free != {} || s.freePages == total - n
  {
    InitInv(total);
    RunKeeps(InitState(total), ops, AsWritten, total);
    var s, n := Run(InitState(total), ops, AsWritten).value, Managed(total);
    WrongIffLostRun(s, total, 0);
    NoBlockIffExhausted(s, total);
    if s.free == {} {
      assert s.free + s.live == s.live;
      LostPageIff(s.live, n);
      forall p: nat ensures LostRun(s, p, 0, n) <==> p < n && !Covers(s.live, p) { OnePageRun(s, p, n); }
    }
  }

  lemma OnePageRun(s: State, p: nat, n: nat)
    requires s.free == {} && s.free + s.live == s.live
    ensures LostRun(s, p, 0, n) <==> p < n && !Covers(s.live, p)
  {
    assert Holds(Block(p, 0), p);
  }

  lemma {:induction false} NoBlockIffExhausted(s: State, total: nat)
    requires Inv(s, total)
    ensures Exhausted(s.free, 0) <==> s.free == {}
  {
    if b :| b in s.free {
      assert b in s.free + s.live && WellPlaced(b, Managed(total));
      assert HasOrder(s.free, b.ord);
    }
  }

  lemma FreeIffNotLive(s: State, p: int, total: nat)
    requires Inv(s, total) && Complete(s, total) && p >= 0
    ensures Covers(s.free, p) <==> p < Managed(total) && !Covers(s.live, p)
  {
    if p < Managed(total) { CoversUnion(s.free, s.live, p); }
    if Covers(s.free, p) {
      var b :| b in s.free && Holds(b, p);
      assert b in s.free + s.live;
      assert forall c :: c in s.live ==> c in s.free + s.live;
      assert !Covers(s.live, p);
    }
  }

  /** History independence: two intended runs that leave the same pages live leave the same lists,
      whatever was allocated and freed in between and in whatever order. */
  lemma {:induction false} HistoryIndependent(total: nat, ops1: seq<Op>, ops2: seq<Op>)
    requires Run(InitState(total), ops1, Intended).Some? && Run(InitState(total), ops2, Intended).Some?
    requires forall p :: Covers(Run(InitState(total), ops1, Intended).value.live, p)
                         <==> Covers(Run(InitState(total), ops2, Intended).value.live, p)
    ensures Run(InitState(total), ops1, Intended).value.free == Run(InitState(total), ops2, Intended).value.free
  {
    InitInv(total);
    RunKeeps(InitState(total), ops1, Intended, total);
    RunKeeps(InitState(total), ops2, Intended, total);
    SameLiveSameFree(Run(InitState(total), ops1, Intended).value, Run(InitState(total), ops2, Intended).value, total);
  }

  lemma SameLiveSameFree(s: State, t: State, total: nat)
    requires Inv(s, total) && Complete(s, total) && Inv(t, total) && Complete(t, total)
    requires forall p :: Covers(s.live, p) <==> Covers(t.live, p)
    ensures s.free == t.free
  {
    var n := Managed(total);
    SoundSubset(s.free, s.free + s.live, n);
    SoundSubset(t.free, t.free + t.live, n);
    forall p
      ensures Covers(s.free, p) <==> Covers(t.free, p)
    {
      if p >= 0 {
        FreeIffNotLive(s, p, total);
        FreeIffNotLive(t, p, total);
      }
    }
    FreeSetDetermined(s.free, t.free, n);
  }

  /** Canonical form: an intended run that ends with nothing live ends in the initial state. */
  lemma {:induction false} CanonicalForm(total: nat, ops: seq<Op>)
    requires Run(InitState(total), ops, Intended).Some?
    requires Run(InitState(total), ops, Intended).value.live == {}
    ensures Run(InitState(total), ops, Intended).value == InitState(total)
  {
    InitInv(total);
    RunKeeps(InitState(total), ops, Intended, total);
    SameLiveSameFree(Run(InitState(total), ops, Intended).value, InitState(total), total);
  }

  /** As written, a run leaks exactly when one of its allocations was served by a list with a second
      block; a run without such an allocation is the intended run. */
  lemma {:induction false} LeakIffNotBenign(s: State, ops: seq<Op>, total: nat)
    requires Inv(s, total) && Run(s, ops, AsWritten).Some?
    ensures Leak(Run(s, ops, AsWritten).value, total) == Leak(s, total) <==> BenignRun(s, ops)
    ensures BenignRun(s, ops) ==> Run(s, ops, Intended) == Run(s, ops, AsWritten)
    decreases |ops|
  {
    if ops != [] {
      StepKeeps(s, ops[0], AsWritten, total);
      var t := Step(s, ops[0], AsWritten).value;
      LeakIffNotBenign(t, ops[1..], total);
      RunKeeps(t, ops[1..], AsWritten, total);
    }
  }

  /** As written, a run that frees everything restores the initial lists exactly when every allocation
      on the way was benign; the page counter is restored either way. */
  lemma {:induction false} CanonicalIffBenign(total: nat, ops: seq<Op>)
    requires Run(InitState(total), ops, AsWritten).Some?
    requires Run(InitState(total), ops, AsWritten).value.live == {}
    ensures Run(InitState(total), ops, AsWritten).value.freePages == total
    ensures Run(InitState(total), ops, AsWritten).value.free == InitBlocks(total)
            <==> BenignRun(InitState(total), ops)
  {
    InitInv(total);
    var t := Run(InitState(total), ops, AsWritten).value;
    RunKeeps(InitState(total), ops, AsWritten, total);
    LeakIffNotBenign(InitState(total), ops, total);
    if BenignRun(InitState(total), ops) { CanonicalForm(total, ops); }
  }

  // ----- a run that loses a page as written

  lemma AllocHead(s: State, h: Block)
    requires h.ord < MAX_BLOCK_POW && IsHead(s.free, h, h.ord)
    ensures Step(s, Alloc(h.ord), AsWritten)
            == Some(State(s.free - OfOrder(s.free, h.ord), s.live + {h}, s.freePages - Pow2(h.ord)))
  {
    assert HasOrder(s.free, h.ord);
    HeadUnique(s.free, h, Head(s.free, h.ord), h.ord);
  }

  lemma {:induction false} AllocSplit(s: State, h: Block, pow: nat)
    requires h.ord == pow + 1 < MAX_BLOCK_POW && IsHead(s.free, h, h.ord) && !HasOrder(s.free, pow)
    ensures Step(s, Alloc(pow), AsWritten)
            == Some(State(s.free - {h} + {Block(h.start + Pow2(pow), pow)}, s.live + {Block(h.start, pow)},
                          s.freePages - Pow2(pow)))
  {
    assert HasOrder(s.free, h.ord);
    assert Smallest(s.free, pow) == h.ord;
    HeadUnique(s.free, h, Head(s.free, h.ord), h.ord);
    var f, hi := s.free - {h}, Block(h.start + Pow2(pow), pow);
    assert Split(f, h.start, h.ord, pow) == Split(f + {hi}, h.start, pow, pow) == f + {hi};
  }

  lemma FreeAlone(s: State, b: Block)
    requires b in s.live && Aligned(b.start, b.ord) && (forall c :: c in s.live && c.start == b.start ==> c == b)
    requires Sibling(b) !in s.free
    ensures Step(s, Free(b.start), AsWritten) == Some(State(s.free + {b}, s.live - {b}, s.freePages + Pow2(b.ord)))
  {
    assert LiveAt(s, b.start, b);
  }

  lemma FreeMergeOnce(s: State, b: Block)
    requires b in s.live && Aligned(b.start, b.ord) && (forall c :: c in s.live && c.start == b.start ==> c == b)
    requires b.ord < MAX_BLOCK_POW && Sibling(b) in s.free && Sibling(Parent(b)) !in s.free
    ensures Step(s, Free(b.start), AsWritten)
            == Some(State(s.free - {Sibling(b)} + {Parent(b)}, s.live - {b}, s.freePages + Pow2(b.ord)))
  {
    assert LiveAt(s, b.start, b);
    assert Coalesce(s.free, b) == Coalesce(s.free - {Sibling(b)}, Parent(b));
  }

  lemma {:induction false} InitPrefix(total: nat, k: nat, m: nat)
    requires m <= k && total < Pow2(m)
    ensures InitFrom(total, k, 0) == InitFrom(total, m, 0)
    decreases k
  {
    if m < k {
      AndPow2(total, k - 1);
      LowStep(total, k - 1);
      LowBound(total, k);
      LowBound(total, k - 1);
      Pow2Mono(m, k - 1);
      InitPrefix(total, k - 1, m);
    }
  }

  lemma {:induction false} SmallInit(total: nat)
    requires total < 8
    ensures InitBlocks(total) == InitFrom(total, 3, 0)
  {
    assert Pow2(3) == 8;
    InitPrefix(total, MAX_BLOCK_POW, 3);
  }

  lemma {:induction false} SixInit(total: nat)
    requires total == 6
    ensures InitFrom(total, 3, 0) == {Block(0, 2), Block(4, 1)}
  {
    AndPow2(total, 2);
    AndPow2(total, 1);
    AndPow2(total, 0);
    assert Shr(total, 2) == 1 && Shr(total, 1) == 3;
    assert InitFrom(total, 3, 0) == {Block(0, 2)} + InitFrom(total, 2, 4);
    assert InitFrom(total, 2, 4) == {Block(4, 1)} + InitFrom(total, 1, 6);
    assert InitFrom(total, 1, 6) == InitFrom(total, 0, 6) == {};
  }

  /** The states of a run that loses two of six pages as written. */
  ghost function Losing(i: nat): State {
    match i
    case 0 => State({Block(0, 2), Block(4, 1)}, {}, 6)
    case 1 => State({Block(0, 2)}, {Block(4, 1)}, 4)
    case 2 => State({Block(2, 1)}, {Block(4, 1), Block(0, 1)}, 2)
    case 3 => State({Block(2, 1), Block(4, 1)}, {Block(0, 1)}, 4)
    case 4 => State({}, {Block(0, 1), Block(2, 1)}, 2)
    case 5 => State({Block(0, 1)}, {Block(2, 1)}, 4)
    case _ => State({Block(0, 2)}, {}, 6)
  }

  lemma Lose1()
    ensures Step(Losing(0), Alloc(1), AsWritten) == Some(Losing(1))
  {
    var s, t, h := Losing(0), Losing(1), Block(4, 1);
    AllocHead(s, h);
    assert OfOrder(s.free, 1) == {h};
    assert s.free - {h} == t.free && s.live + {h} == t.live;
  }

  lemma Lose2()
    ensures Step(Losing(1), Alloc(1), AsWritten) == Some(Losing(2))
  {
    var s, t, h := Losing(1), Losing(2), Block(0, 2);
    AllocSplit(s, h, 1);
    assert s.free - {h} + {Block(2, 1)} == t.free && s.live + {Block(0, 1)} == t.live;
  }

  lemma Lose3()
    ensures Step(Losing(2), Free(4), AsWritten) == Some(Losing(3))
  {
    var s, t, b := Losing(2), Losing(3), Block(4, 1);
    assert Aligned(4, 1) && !Aligned(2, 2);
    FreeAlone(s, b);
    assert s.free + {b} == t.free && s.live - {b} == t.live;
  }

  lemma Lose4()
    ensures Step(Losing(3), Alloc(1), AsWritten) == Some(Losing(4))
  {
    var s, t, h := Losing(3), Losing(4), Block(2, 1);
    AllocHead(s, h);
    assert OfOrder(s.free, 1) == s.free;
    assert s.free - s.free == t.free && s.live + {h} == t.live;
  }

  lemma Lose5()
    ensures Step(Losing(4), Free(0), AsWritten) == Some(Losing(5))
  {
    var s, t, b := Losing(4), Losing(5), Block(0, 1);
    FreeAlone(s, b);
    assert s.free + {b} == t.free && s.live - {b} == t.live;
  }

  lemma Lose6()
    ensures Step(Losing(5), Free(2), AsWritten) == Some(Losing(6))
  {
    var s, t, a, b, q := Losing(5), Losing(6), Block(0, 1), Block(2, 1), Block(0, 2);
    SecondPair(b);
    FreeMergeOnce(s, b);
    assert s.free - {a} + {q} == t.free && s.live - {b} == t.live;
  }

  lemma SecondPair(b: Block)
    requires b == Block(2, 1)
    ensures Aligned(b.start, b.ord) && Sibling(b) == Block(0, 1) && Parent(b) == Block(0, 2)
    ensures Sibling(Parent(b)).ord == 2
  {
    assert !Aligned(2, 2);
  }

  lemma {:induction false} RunChain(states: seq<State>, ops: seq<Op>, r: Reading)
    requires |states| == |ops| + 1
    requires forall i :: 0 <= i < |ops| ==> Step(states[i], ops[i], r) == Some(states[i + 1])
    ensures Run(states[0], ops, r) == Some(states[|ops|])
    decreases |ops|
  {
    if ops != [] {
      assert Step(states[0], ops[0], r) == Some(states[1]);
      forall i | 0 <= i < |ops[1..]| ensures Step(states[1..][i], ops[1..][i], r) == Some(states[1..][i + 1]) {
        assert Step(states[i + 1], ops[i + 1], r) == Some(states[i + 2]);
      }
      RunChain(states[1..], ops[1..], r);
    }
  }

  const LOSING: seq<Op> := [Alloc(1), Alloc(1), Free(4), Alloc(1), Free(0), Free(2)]

  /** Six pages as written: two blocks of two pages out, one back, and the next such allocation empties
      a list that holds blocks 2 and 4. Freeing everything then leaves pages 4 and 5 on no list. */
  lemma PagesLostAsWritten(total: nat)
    requires total == 6
    ensures InitBlocks(total) == {Block(0, 2), Block(4, 1)}
    ensures Run(InitState(total), LOSING, AsWritten) == Some(State({Block(0, 2)}, {}, 6))
  {
    SmallInit(total);
    SixInit(total);
    var ops := LOSING;
    var states := seq(7, i requires 0 <= i => Losing(i));
    forall i | 0 <= i < |ops| ensures Step(states[i], ops[i], AsWritten) == Some(states[i + 1]) {
      LosingStep(i);
    }
    RunChain(states, ops, AsWritten);
  }

  const REFUSED: seq<Op> := LOSING + [Alloc(2)]

  /** One allocation later, a request for two pages finds no list that can serve it, though no live block holds
      pages 4 and 5; as written the code then goes past the end of the lists. */
  lemma RefusedAsWritten(total: nat)
    requires total == 6
    ensures var s := State({}, {Block(0, 2)}, 2);
            && Run(InitState(total), REFUSED, AsWritten) == Some(s) && Step(s, Alloc(1), AsWritten) == None
            && Exhausted(s.free, 1) && NotLiveRun(s, 4, 1, Managed(total))
  {
    PagesLostAsWritten(total);
    LoseLast();
    hide Run, Step;
    RunSnoc(InitState(total), LOSING, Alloc(2), AsWritten);
    NothingLeft(State({}, {Block(0, 2)}, 2));
    TwoPagesFree(State({}, {Block(0, 2)}, 2), total);
  }

  lemma LoseLast()
    ensures Step(State({Block(0, 2)}, {}, 6), Alloc(2), AsWritten) == Some(State({}, {Block(0, 2)}, 2))
  {
    var s, t, h := State({Block(0, 2)}, {}, 6), State({}, {Block(0, 2)}, 2), Block(0, 2);
    AllocHead(s, h);
    assert OfOrder(s.free, 2) == {h} && s.free - {h} == t.free && s.live + {h} == t.live;
  }

  lemma NothingLeft(s: State)
    requires s.free == {}
    ensures Exhausted(s.free, 1) && Step(s, Alloc(1), AsWritten) == None
  {
    NoneSufficient(1);
  }

  lemma TwoPagesFree(s: State, total: nat)
    requires s.live == {Block(0, 2)} && total == 6
    ensures NotLiveRun(s, 4, 1, Managed(total))
  {
    ManagedBound(total);
    assert Aligned(4, 1) && Pow2(1) == 2 && Pow2(2) == 4;
  }

  lemma {:induction false} NoneSufficient(pow: nat)
    requires pow <= MAX_BLOCK_POW
    ensures Smallest({}, pow) == MAX_BLOCK_POW
    decreases MAX_BLOCK_POW - pow
  {
    if pow < MAX_BLOCK_POW { NoneSufficient(pow + 1); }
  }

  lemma {:induction false} RunSnoc(s: State, ops: seq<Op>, op: Op, r: Reading)
    requires Run(s, ops, r).Some?
    ensures Run(s, ops + [op], r) == Step(Run(s, ops, r).value, op, r)
    decreases |ops|
  {
    if ops != [] {
      assert (ops + [op])[0] == ops[0] && (ops + [op])[1..] == ops[1..] + [op];
      RunSnoc(Step(s, ops[0], r).value, ops[1..], op, r);
    } else {
      assert [op][1..] == [];
    }
  }

  lemma LosingStep(i: nat)
    requires i < 6
    ensures Step(Losing(i), LOSING[i], AsWritten) == Some(Losing(i + 1))
  {
    match i
    case 0 => Lose1();
    case 1 => Lose2();
    case 2 => Lose3();
    case 3 => Lose4();
    case 4 => Lose5();
    case 5 => Lose6();
  }

  // ----- a run over four pages

  ghost function Four(i: nat): State {
    match i
    case 0 => State({Block(0, 2)}, {}, 4)
    case 1 => State({Block(2, 1), Block(1, 0)}, {Block(0, 0)}, 3)
    case _ => State({Block(2, 1)}, {Block(0, 1)}, 2)
  }

  /** Page 0 is taken and given back, then pages 0 and 1 are taken as one block. */
  lemma FourSteps(total: nat)
    requires total == 4
    ensures InitState(total) == Four(0)
    ensures Step(Four(0), Alloc(0), AsWritten) == Some(Four(1))
    ensures Step(Four(1), Free(0), AsWritten) == Some(Four(0))
    ensures Step(Four(0), Alloc(1), AsWritten) == Some(Four(2))
  {
    hide Step, InitBlocks;
    FourInit(total);
    TakeOne();
    GiveBack();
    TakePair();
  }

  lemma TakePair()
    ensures Step(Four(0), Alloc(1), AsWritten) == Some(Four(2))
  {
    hide Step;
    AllocSplit(Four(0), Block(0, 2), 1);
    assert Four(0).free - {Block(0, 2)} + {Block(2, 1)} == Four(2).free && {} + {Block(0, 1)} == Four(2).live;
  }

  lemma {:induction false} FourInit(total: nat)
    requires total == 4
    ensures InitBlocks(total) == {Block(0, 2)}
  {
    SmallInit(total);
    AndPow2(total, 2);
    AndPow2(total, 1);
    AndPow2(total, 0);
    assert Shr(total, 2) == 1 && Shr(total, 1) == 2;
    assert InitFrom(total, 3, 0) == {Block(0, 2)} + InitFrom(total, 2, 4);
    assert InitFrom(total, 2, 4) == InitFrom(total, 1, 4) == InitFrom(total, 0, 4) == {};
  }

  lemma {:induction false} TakeOne()
    ensures Step(Four(0), Alloc(0), AsWritten) == Some(Four(1))
  {
    var s, h := Four(0), Block(0, 2);
    assert HasOrder(s.free, 2) && Smallest(s.free, 0) == 2 && IsHead(s.free, h, 2);
    HeadUnique(s.free, h, Head(s.free, 2), 2);
    assert s.free - {h} == {};
    assert Split({}, 0, 2, 0) == Split({} + {Block(2, 1)}, 0, 1, 0)
           == Split({} + {Block(2, 1)} + {Block(1, 0)}, 0, 0, 0) == {Block(2, 1), Block(1, 0)};
    assert s.live + {Block(0, 0)} == Four(1).live;
  }

  lemma Pairs(b: Block, c: Block, q: Block)
    requires b == Block(0, b.ord) && c == Block(Pow2(b.ord), b.ord) && q == Block(0, b.ord + 1)
    ensures Aligned(0, b.ord) && Sibling(b) == c && Parent(b) == q
  {
    AlignedZero(b.ord);
    AlignedZero(b.ord + 1);
  }

  lemma {:induction false} MergeTwice(b: Block, c: Block, q: Block, e: Block, all: Block)
    requires Aligned(b.start, b.ord) && Sibling(b) == c && Parent(b) == q
    requires Aligned(q.start, q.ord) && Sibling(q) == e && Parent(q) == all && Aligned(all.start, all.ord)
    requires b.ord + 2 < MAX_BLOCK_POW
    ensures Coalesce({e, c}, b) == {all}
  {
    CoalesceStep({e, c}, b);
    CoalesceStep({e}, q);
    CoalesceStep({}, all);
    hide *;
    assert {e, c} - {c} == {e} && {e} - {e} == {} && {} + {all} == {all};
  }

  lemma GiveBackAll()
    ensures Aligned(0, 0) && Coalesce({Block(2, 1), Block(1, 0)}, Block(0, 0)) == {Block(0, 2)}
  {
    hide Coalesce;
    Pairs(Block(0, 0), Block(1, 0), Block(0, 1));
    Pairs(Block(0, 1), Block(2, 1), Block(0, 2));
    AlignedZero(2);
    MergeTwice(Block(0, 0), Block(1, 0), Block(0, 1), Block(2, 1), Block(0, 2));
  }

  lemma GiveBack()
    ensures Step(Four(1), Free(0), AsWritten) == Some(Four(0))
  {
    hide Coalesce, Sibling, Parent, Aligned;
    var s, b := Four(1), Block(0, 0);
    GiveBackAll();
    assert LiveAt(s, 0, b) && forall x :: LiveAt(s, 0, x) ==> x == b;
    assert s.live - {b} == {};
  }
}
