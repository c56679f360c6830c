/** The free lists of kernel/buddy.c: one singly linked list per order, threaded by index
    through the page records. Values only; module Buddy applies these steps in place. */
module BuddyLists {
  import opened Collections
  import opened Bits
  import opened BuddyBlocks

  /** buddy_block: next record of the same list or -1, order, used flag. */
  datatype PageInfo = PageInfo(next: int, pow: nat, used: bool)

  function At(xs: seq<nat>, i: nat): int {
    if i < |xs| then xs[i] else -1
  }

  ghost predicate Chain(head: int, pages: seq<PageInfo>, xs: seq<nat>, k: nat) {
    && head == At(xs, 0)
    && forall i {:trigger NodeOk(pages, xs, k, i)} :: 0 <= i < |xs| ==> NodeOk(pages, xs, k, i)
  }

  /** The record of entry i has the list's order and leads to entry i + 1, or to -1 after the last. */
  ghost predicate NodeOk(pages: seq<PageInfo>, xs: seq<nat>, k: nat, i: nat)
    requires i < |xs|
  {
    xs[i] < |pages| && pages[xs[i]].pow == k && pages[xs[i]].next == At(xs, i + 1)
  }

  /** lists[k] is what the chain from heads[k] visits: ascending, ended by -1. */
  ghost predicate Linked(heads: seq<int>, pages: seq<PageInfo>, lists: seq<seq<nat>>) {
    && |heads| == |lists| == MAX_BLOCK_POW
    && forall k {:trigger ListOk(heads, pages, lists, k)} :: 0 <= k < MAX_BLOCK_POW ==> ListOk(heads, pages, lists, k)
  }

  ghost predicate ListOk(heads: seq<int>, pages: seq<PageInfo>, lists: seq<seq<nat>>, k: nat)
    requires k < |heads| && k < |lists|
  {
    Chain(heads[k], pages, lists[k], k) && Ascending(lists[k])
  }

  /** No record is on two lists. */
  ghost predicate Separate(lists: seq<seq<nat>>) {
    forall k, l, x :: 0 <= k < |lists| && 0 <= l < |lists| && x in lists[k] && x in lists[l] ==> k == l
  }

  ghost predicate Listed(lists: seq<seq<nat>>, x: nat) {
    exists k :: 0 <= k < |lists| && x in lists[k]
  }

  ghost function FreeSet(lists: seq<seq<nat>>): (s: set<Block>)
    ensures forall b :: b in s <==> b.ord < |lists| && b.start in lists[b.ord]
  {
    set k, x | 0 <= k < |lists| && x in lists[k] :: Block(x, k)
  }

  lemma SoundSeparate(lists: seq<seq<nat>>, n: nat)
    requires Sound(FreeSet(lists), n)
    ensures Separate(lists)
  {
    forall k, l, x | 0 <= k < |lists| && 0 <= l < |lists| && x in lists[k] && x in lists[l]
      ensures k == l
    {
      assert Block(x, k) in FreeSet(lists) && Block(x, l) in FreeSet(lists);
    }
  }

  /** A block apart from every listed block starts at a record on no list. */
  lemma NotListed(lists: seq<seq<nat>>, x: nat, b: Block)
    requires forall c :: c in FreeSet(lists) ==> Disjoint(c, b)
    requires Holds(b, x)
    ensures !Listed(lists, x)
  {
    if Listed(lists, x) {
      var k :| 0 <= k < |lists| && x in lists[k];
      var c := Block(x, k);
      if c in FreeSet(lists) { assert false; }
    }
  }

  lemma ChainFrame(head: int, pages: seq<PageInfo>, pages': seq<PageInfo>, xs: seq<nat>, k: nat)
    requires Chain(head, pages, xs, k) && |pages'| == |pages|
    requires forall x :: x in xs && x < |pages| ==> pages'[x].next == pages[x].next && pages'[x].pow == pages[x].pow
    ensures Chain(head, pages', xs, k)
  {
    forall i | 0 <= i < |xs| ensures NodeOk(pages', xs, k, i) {
      assert NodeOk(pages, xs, k, i);
    }
  }

  /** Changing a record that is on no list, or only its flag and data, keeps every list. */
  lemma LinkedFrame(heads: seq<int>, pages: seq<PageInfo>, pages': seq<PageInfo>, lists: seq<seq<nat>>)
    requires Linked(heads, pages, lists) && |pages'| == |pages|
    requires forall x :: 0 <= x < |pages| && Listed(lists, x) ==>
               pages'[x].next == pages[x].next && pages'[x].pow == pages[x].pow
    ensures Linked(heads, pages', lists)
  {
    forall k | 0 <= k < MAX_BLOCK_POW ensures ListOk(heads, pages', lists, k) {
      assert ListOk(heads, pages, lists, k);
      ChainFrame(heads[k], pages, pages', lists[k], k);
    }
  }

  // ----- taking a record out of a list

  function UnlinkHeads(heads: seq<int>, pages: seq<PageInfo>, lists: seq<seq<nat>>, k: nat, i: nat): seq<int>
    requires k < |lists| && k < |heads| && i < |lists[k]| && lists[k][i] < |pages|
  {
    if i == 0 then heads[k := pages[lists[k][0]].next] else heads
  }

  function UnlinkPages(pages: seq<PageInfo>, lists: seq<seq<nat>>, k: nat, i: nat): seq<PageInfo>
    requires k < |lists| && i < |lists[k]| && lists[k][i] < |pages|
    requires i != 0 ==> lists[k][i - 1] < |pages|
  {
    if i == 0 then pages
    else pages[lists[k][i - 1] := pages[lists[k][i - 1]].(next := pages[lists[k][i]].next)]
  }

  lemma RemoveAtFacts(xs: seq<nat>, i: nat)
    requires Ascending(xs) && i < |xs|
    ensures Ascending(RemoveAt(xs, i))
    ensures forall x :: x in RemoveAt(xs, i) <==> x in xs && x != xs[i]
  {
    var ys := RemoveAt(xs, i);
    assert xs == xs[..i] + [xs[i]] + xs[i + 1..];
    assert forall j :: 0 <= j < |ys| ==> ys[j] == if j < i then xs[j] else xs[j + 1];
  }

  lemma UnlinkChain(head: int, pages: seq<PageInfo>, pages': seq<PageInfo>, xs: seq<nat>, k: nat, i: nat)
    requires Chain(head, pages, xs, k) && Ascending(xs) && i < |xs|
    requires xs[i] < |pages| && xs[0] < |pages| && |pages'| == |pages|
    requires i > 0 ==> xs[i - 1] < |pages| && pages'[xs[i - 1]] == pages[xs[i - 1]].(next := pages[xs[i]].next)
    requires forall y :: 0 <= y < |pages| && (i == 0 || y != xs[i - 1]) ==> pages'[y] == pages[y]
    ensures Chain(if i == 0 then pages[xs[0]].next else head, pages', RemoveAt(xs, i), k)
  {
    var ys := RemoveAt(xs, i);
    assert NodeOk(pages, xs, k, i);
    forall j | 0 <= j < |ys| ensures NodeOk(pages', ys, k, j) {
      var o := if j < i then j else j + 1;
      assert NodeOk(pages, xs, k, o) && ys[j] == xs[o];
      assert At(ys, j + 1) == if j + 1 < i then At(xs, j + 1) else At(xs, j + 2);
      assert i > 0 && j >= i ==> xs[i - 1] < xs[o];
    }
  }

  /** Changing one list replaces the blocks of its order. */
  lemma FreeSetReplace(lists: seq<seq<nat>>, k: nat, ys: seq<nat>)
    requires k < |lists|
    ensures forall b :: b in FreeSet(lists[k := ys])
              <==> (b.ord != k && b in FreeSet(lists)) || (b.ord == k && b.start in ys)
  {}

  lemma Unlink(heads: seq<int>, pages: seq<PageInfo>, lists: seq<seq<nat>>, k: nat, i: nat)
    requires Linked(heads, pages, lists) && Separate(lists) && k < MAX_BLOCK_POW && i < |lists[k]|
    ensures lists[k][i] < |pages| && (i != 0 ==> lists[k][i - 1] < |pages|)
    ensures Linked(UnlinkHeads(heads, pages, lists, k, i), UnlinkPages(pages, lists, k, i),
                   lists[k := RemoveAt(lists[k], i)])
    ensures FreeSet(lists[k := RemoveAt(lists[k], i)]) == FreeSet(lists) - {Block(lists[k][i], k)}
  {
    var xs := lists[k];
    var lists' := lists[k := RemoveAt(xs, i)];
    assert ListOk(heads, pages, lists, k) && NodeOk(pages, xs, k, i) && (i > 0 ==> NodeOk(pages, xs, k, i - 1));
    var heads', pages' := UnlinkHeads(heads, pages, lists, k, i), UnlinkPages(pages, lists, k, i);
    RemoveAtFacts(xs, i);
    UnlinkChain(heads[k], pages, pages', xs, k, i);
    forall l | 0 <= l < MAX_BLOCK_POW ensures ListOk(heads', pages', lists', l) {
      if l != k {
        assert i != 0 ==> xs[i - 1] in lists[k];
        assert ListOk(heads, pages, lists, l);
        ChainFrame(heads[l], pages, pages', lists[l], l);
      }
    }
    FreeSetReplace(lists, k, RemoveAt(xs, i));
  }

  /** Put record x, not on any list, at position i of list k. */
  function LinkHeads(heads: seq<int>, k: nat, i: nat, x: nat): seq<int>
    requires k < |heads|
  {
    if i == 0 then heads[k := x] else heads
  }

  function LinkPages(pages: seq<PageInfo>, lists: seq<seq<nat>>, k: nat, i: nat, x: nat): seq<PageInfo>
    requires k < |lists| && i <= |lists[k]| && x < |pages|
    requires i != 0 ==> lists[k][i - 1] < |pages|
  {
    var pages1 := pages[x := pages[x].(next := At(lists[k], i))];
    if i == 0 then pages1
    else pages1[lists[k][i - 1] := pages1[lists[k][i - 1]].(next := x)]
  }

  lemma InsertAtFacts(xs: seq<nat>, i: nat, x: nat)
    requires Ascending(xs) && i <= |xs|
    requires forall j :: 0 <= j < i ==> xs[j] < x
    requires forall j :: i <= j < |xs| ==> x < xs[j]
    ensures Ascending(InsertAt(xs, i, x))
    ensures forall y :: y in InsertAt(xs, i, x) <==> y in xs || y == x
  {
    assert xs == xs[..i] + xs[i..];
  }

  lemma LinkChain(head: int, pages: seq<PageInfo>, pages': seq<PageInfo>, xs: seq<nat>, k: nat, i: nat, x: nat)
    requires Chain(head, pages, xs, k) && Ascending(xs) && i <= |xs|
    requires x < |pages| && pages[x].pow == k && x !in xs
    requires i > 0 ==> xs[i - 1] < |pages|
    requires |pages'| == |pages| && pages'[x] == pages[x].(next := At(xs, i))
    requires i > 0 ==> pages'[xs[i - 1]] == pages[xs[i - 1]].(next := x)
    requires forall y :: 0 <= y < |pages| && y != x && (i == 0 || y != xs[i - 1]) ==> pages'[y] == pages[y]
    ensures Chain(if i == 0 then x else head, pages', InsertAt(xs, i, x), k)
  {
    var ys := InsertAt(xs, i, x);
    forall j | 0 <= j < |ys| ensures NodeOk(pages', ys, k, j) {
      if j < i {
        assert NodeOk(pages, xs, k, j);
        assert ys[j] == xs[j];
        assert At(ys, j + 1) == if j + 1 < i then At(xs, j + 1) else x;
      } else if j == i {
        assert At(ys, j + 1) == At(xs, j);
      } else {
        assert NodeOk(pages, xs, k, j - 1);
        assert ys[j] == xs[j - 1];
        assert At(ys, j + 1) == At(xs, j);
        assert i > 0 ==> xs[i - 1] < xs[j - 1];
      }
    }
  }

  lemma Link(heads: seq<int>, pages: seq<PageInfo>, lists: seq<seq<nat>>, k: nat, i: nat, x: nat)
    requires Linked(heads, pages, lists) && Separate(lists) && k < MAX_BLOCK_POW && i <= |lists[k]|
    requires x < |pages| && pages[x].pow == k && !Listed(lists, x)
    requires forall j :: 0 <= j < i ==> lists[k][j] < x
    requires forall j :: i <= j < |lists[k]| ==> x < lists[k][j]
    ensures i != 0 ==> lists[k][i - 1] < |pages|
    ensures Linked(LinkHeads(heads, k, i, x), LinkPages(pages, lists, k, i, x), lists[k := InsertAt(lists[k], i, x)])
    ensures FreeSet(lists[k := InsertAt(lists[k], i, x)]) == FreeSet(lists) + {Block(x, k)}
  {
    var xs := lists[k];
    var lists' := lists[k := InsertAt(xs, i, x)];
    assert ListOk(heads, pages, lists, k) && (i > 0 ==> NodeOk(pages, xs, k, i - 1));
    InsertAtFacts(xs, i, x);
    var heads', pages' := LinkHeads(heads, k, i, x), LinkPages(pages, lists, k, i, x);
    LinkChain(heads[k], pages, pages', xs, k, i, x);
    forall l | 0 <= l < MAX_BLOCK_POW ensures ListOk(heads', pages', lists', l) {
      if l != k {
        assert i != 0 ==> xs[i - 1] in lists[k];
        assert ListOk(heads, pages, lists, l);
        ChainFrame(heads[l], pages, pages', lists[l], l);
      }
    }
    FreeSetReplace(lists, k, InsertAt(xs, i, x));
  }

  /** A block apart from all listed ones becomes the only block of its order. */
  lemma LinkFirst(heads: seq<int>, pages: seq<PageInfo>, lists: seq<seq<nat>>, b: Block)
    requires Linked(heads, pages, lists) && b.ord < MAX_BLOCK_POW && lists[b.ord] == []
    requires b.start < |pages| && forall c :: c in FreeSet(lists) ==> Disjoint(c, b)
    ensures Linked(heads[b.ord := b.start], pages[b.start := pages[b.start].(pow := b.ord, next := -1)],
                   lists[b.ord := [b.start]])
    ensures FreeSet(lists[b.ord := [b.start]]) == FreeSet(lists) + {b}
  {
    HoldsStart(b);
    NotListed(lists, b.start, b);
    var heads', lists' := heads[b.ord := b.start], lists[b.ord := [b.start]];
    var pages' := pages[b.start := pages[b.start].(pow := b.ord, next := -1)];
    LinkedFrame(heads, pages, pages', lists);
    forall k | 0 <= k < MAX_BLOCK_POW ensures ListOk(heads', pages', lists', k) {
      if k == b.ord {
        assert NodeOk(pages', lists'[k], k, 0);
      } else {
        assert ListOk(heads, pages', lists, k);
      }
    }
    FreeSetReplace(lists, b.ord, [b.start]);
  }

  // ----- cutting the head of list j in two

  /** The block at the head of list j, split: its halves become the whole of list j - 1. */
  function CutLists(lists: seq<seq<nat>>, j: nat): seq<seq<nat>>
    requires 0 < j < |lists| && lists[j] != []
  {
    lists[j := lists[j][1..]][j - 1 := [lists[j][0], lists[j][0] + Pow2(j - 1)]]
  }

  function CutPages(pages: seq<PageInfo>, p1: nat, p2: nat, j: nat): seq<PageInfo>
    requires p1 < |pages| && p2 < |pages| && 0 < j
  {
    pages[p1 := pages[p1].(pow := j - 1, next := p2)][p2 := pages[p2].(pow := j - 1, next := -1)]
  }

  lemma CutSet(lists: seq<seq<nat>>, j: nat)
    requires 0 < j < |lists| && lists[j] != [] && lists[j - 1] == [] && Ascending(lists[j])
    ensures var p1, p2 := lists[j][0], lists[j][0] + Pow2(j - 1);
            FreeSet(CutLists(lists, j)) == FreeSet(lists) - {Block(p1, j)} + {Block(p1, j - 1), Block(p2, j - 1)}
  {
    var p1, p2 := lists[j][0], lists[j][0] + Pow2(j - 1);
    FreeSetReplace(lists, j, lists[j][1..]);
    FreeSetReplace(lists[j := lists[j][1..]], j - 1, [p1, p2]);
    assert lists[j] == [p1] + lists[j][1..];
    assert forall x :: x in lists[j][1..] <==> x in lists[j] && x != p1;
  }

  lemma CutLinked(heads: seq<int>, pages: seq<PageInfo>, lists: seq<seq<nat>>, j: nat, p1: nat, p2: nat)
    requires Linked(heads, pages, lists) && Separate(lists)
    requires 0 < j < MAX_BLOCK_POW && lists[j] != [] && lists[j - 1] == []
    requires p1 == lists[j][0] && p2 == p1 + Pow2(j - 1) && p2 < |pages| && !Listed(lists, p2)
    ensures Linked(heads[j := pages[p1].next][j - 1 := p1], CutPages(pages, p1, p2, j), CutLists(lists, j))
  {
    assert ListOk(heads, pages, lists, j) && NodeOk(pages, lists[j], j, 0);
    var lists1 := lists[j := RemoveAt(lists[j], 0)];
    assert RemoveAt(lists[j], 0) == lists[j][1..];
    Unlink(heads, pages, lists, j, 0);
    assert forall k, x :: 0 <= k < |lists1| && x in lists1[k] ==> x in lists[k];
    assert p1 in lists[j] && p1 !in lists1[j];
    assert !Listed(lists1, p1) && !Listed(lists1, p2);
    var pages', heads' := CutPages(pages, p1, p2, j), heads[j := pages[p1].next];
    LinkedFrame(heads', pages, pages', lists1);
    var lists' := lists1[j - 1 := [p1, p2]];
    assert lists' == CutLists(lists, j);
    var heads1 := heads'[j - 1 := p1];
    forall k | 0 <= k < MAX_BLOCK_POW ensures ListOk(heads1, pages', lists', k) {
      if k == j - 1 {
        assert NodeOk(pages', [p1, p2], k, 0) && NodeOk(pages', [p1, p2], k, 1);
      } else {
        assert ListOk(heads', pages', lists1, k);
      }
    }
  }

  // ----- siblings are neighbours on an ascending list

  /** buddy_aux_mergeable: the block numbers differ in the lowest bit only. */
  predicate Mergeable(index1: nat, index2: nat, pow: nat) {
    Xor(Shr(index1, pow), Shr(index2, pow)) == 1
  }

  lemma {:induction false} MergeableIffSiblings(a: nat, b: nat, pow: nat)
    requires Aligned(a, pow) && Aligned(b, pow)
    ensures Mergeable(a, b, pow) <==> Siblings(Block(a, pow), Block(b, pow))
    decreases pow
  {
    if pow == 0 {
      XorOne(a, b);
      assert Aligned(a, 1) <==> a % 2 == 0;
      assert Aligned(b, 1) <==> b % 2 == 0;
    } else {
      MergeableIffSiblings(a / 2, b / 2, pow - 1);
      assert a == 2 * (a / 2) && b == 2 * (b / 2);
    }
  }

  /** No aligned start lies strictly between those of two siblings. */
  lemma {:induction false} NoneBetween(x: nat, k: nat, y: nat)
    requires Aligned(x, k) && Aligned(y, k)
    ensures var s := Sibling(Block(x, k)).start; !(x < y < s) && !(s < y < x)
  {
    if x < y { AlignedGap(x, y, k); } else if y < x { AlignedGap(y, x, k); }
  }

  /** If the sibling of x is on the list, it is the last entry below x or the first above it. */
  lemma {:induction false} SiblingIsNeighbour(xs: seq<nat>, x: nat, k: nat, i: nat)
    requires Ascending(xs) && Aligned(x, k) && forall j :: 0 <= j < |xs| ==> Aligned(xs[j], k)
    requires i <= |xs|
    requires forall j :: 0 <= j < i ==> xs[j] < x
    requires forall j :: i <= j < |xs| ==> x < xs[j]
    requires Sibling(Block(x, k)).start in xs
    ensures || (i > 0 && Siblings(Block(x, k), Block(xs[i - 1], k)))
            || (i < |xs| && Siblings(Block(x, k), Block(xs[i], k)))
  {
    var s := Sibling(Block(x, k));
    var j :| 0 <= j < |xs| && xs[j] == s.start;
    if i > 0 { NoneBetween(x, k, xs[i - 1]); }
    if i < |xs| { NoneBetween(x, k, xs[i]); }
  }
}
