/** kernel/list.h in place: circular doubly linked lists threaded through `prev` and `next`. A list is the
    ring of its nodes, head first; its elements are the ring without the head. */
module ListHead {
  import opened Collections

  function After(i: nat, n: nat): nat {
    if i + 1 < n then i + 1 else 0
  }

  function Before(i: nat, n: nat): nat {
    if i == 0 && n > 0 then n - 1 else if i == 0 then 0 else i - 1
  }

  /** Node i of the ring is linked to its two neighbours. */
  ghost predicate NodeOk(prev: seq<nat>, next: seq<nat>, ring: seq<nat>, i: nat) {
    && i < |ring| && ring[i] < |next| && ring[i] < |prev|
    && next[ring[i]] == ring[After(i, |ring|)] && prev[ring[i]] == ring[Before(i, |ring|)]
  }

  /** The pointers link exactly the nodes of the ring, in order. */
  ghost predicate Linked(prev: seq<nat>, next: seq<nat>, ring: seq<nat>) {
    && |prev| == |next| && ring != [] && Distinct(ring)
    && forall i: nat :: i < |ring| ==> NodeOk(prev, next, ring, i)
  }

  /** A ring that shares no node with the writes keeps its links. */
  lemma OtherRing(prev: seq<nat>, next: seq<nat>, prev': seq<nat>, next': seq<nat>, ring: seq<nat>)
    requires Linked(prev, next, ring) && |prev'| == |next'| == |prev|
    requires forall x :: x in ring && x < |prev| ==> prev'[x] == prev[x] && next'[x] == next[x]
    ensures Linked(prev', next', ring)
  {
    forall i: nat | i < |ring| ensures NodeOk(prev', next', ring, i) {
      assert NodeOk(prev, next, ring, i) && ring[i] in ring;
    }
  }

  /** __list_add between nodes k - 1 and k of the ring (k == |ring|: before the head). */
  lemma Inserted(prev: seq<nat>, next: seq<nat>, prev': seq<nat>, next': seq<nat>, ring: seq<nat>, k: nat, x: nat)
    requires Linked(prev, next, ring) && 0 < k <= |ring| && x !in ring && x < |prev|
    requires var p, n := ring[k - 1], ring[After(k - 1, |ring|)];
             && p < |next| && n < |prev|
             && prev' == prev[x := p][n := x] && next' == next[x := n][p := x]
    ensures Linked(prev', next', InsertAt(ring, k, x))
  {
    var t, m := InsertAt(ring, k, x), |ring|;
    forall i: nat | i < |t| ensures NodeOk(prev', next', t, i) {
      if i != k {
        var o := if i < k then i else i - 1;
        assert NodeOk(prev, next, ring, o) && t[i] == ring[o];
      }
    }
  }

  /** __list_del of node k, which is not the head: the others close up. */
  lemma Deleted(prev: seq<nat>, next: seq<nat>, prev': seq<nat>, next': seq<nat>, ring: seq<nat>, k: nat)
    requires Linked(prev, next, ring) && 0 < k < |ring|
    requires var p, n := ring[k - 1], ring[After(k, |ring|)];
             p < |next| && n < |prev| && prev' == prev[n := p] && next' == next[p := n]
    ensures Linked(prev', next', RemoveAt(ring, k))
  {
    var t := RemoveAt(ring, k);
    RemovedOne(ring, k);
    forall i: nat | i < |t| ensures NodeOk(prev', next', t, i) {
      var o := if i < k then i else i + 1;
      assert NodeOk(prev, next, ring, o) && t[i] == ring[o];
    }
  }

  class Links {
    const prev: array<nat>
    const next: array<nat>

    ghost predicate Ring(ring: seq<nat>)
      reads prev, next
    {
      Linked(prev[..], next[..], ring)
    }

    /** Pointers of nodes outside the set are as they were. */
    twostate predicate OnlyIn(nodes: set<nat>)
      requires prev.Length == next.Length
      reads prev, next
    {
      forall x: nat :: x < prev.Length && x !in nodes ==> prev[x] == old(prev[x]) && next[x] == old(next[x])
    }

    constructor (nodes: nat)
      ensures prev.Length == next.Length == nodes && fresh(prev) && fresh(next) && prev != next
    {
      prev, next := new nat[nodes](_ => 0), new nat[nodes](_ => 0);
    }

    // list_init
    method Init(list: nat)
      requires list < prev.Length == next.Length && prev != next
      modifies prev, next
      ensures Ring([list]) && OnlyIn({list})
    {
      next[list] := list;
      prev[list] := list;
    }

    // __list_add
    method AddBetween(new_: nat, p: nat, n: nat)
      requires prev.Length == next.Length && prev != next && new_ < prev.Length && p < prev.Length && n < prev.Length
      modifies prev, next
      ensures prev[..] == old(prev[..])[new_ := p][n := new_] && next[..] == old(next[..])[new_ := n][p := new_]
    {
      prev[new_] := p;
      next[new_] := n;
      next[p] := new_;
      prev[n] := new_;
    }

    /** list_add: the new node becomes the first element. */
    method Add(new_: nat, head: nat, ghost ring: seq<nat>)
      requires prev != next && Ring(ring) && ring[0] == head && new_ !in ring && new_ < prev.Length
      modifies prev, next
      ensures Ring([head, new_] + ring[1..]) && OnlyIn((set x | x in ring) + {new_})
    {
      assert NodeOk(prev[..], next[..], ring, 0) && NodeOk(prev[..], next[..], ring, After(0, |ring|));
      ghost var p0, n0 := prev[..], next[..];
      AddBetween(new_, head, next[head]);
      Inserted(p0, n0, prev[..], next[..], ring, 1, new_);
      assert InsertAt(ring, 1, new_) == [head, new_] + ring[1..];
      assert ring[After(0, |ring|)] in ring;
    }

    /** list_add_tail: the new node becomes the last element. */
    method AddTail(new_: nat, head: nat, ghost ring: seq<nat>)
      requires prev != next && Ring(ring) && ring[0] == head && new_ !in ring && new_ < prev.Length
      modifies prev, next
      ensures Ring(ring + [new_]) && OnlyIn((set x | x in ring) + {new_})
    {
      assert NodeOk(prev[..], next[..], ring, 0) && NodeOk(prev[..], next[..], ring, |ring| - 1);
      ghost var p0, n0 := prev[..], next[..];
      AddBetween(new_, prev[head], head);
      Inserted(p0, n0, prev[..], next[..], ring, |ring|, new_);
      assert InsertAt(ring, |ring|, new_) == ring + [new_];
      assert ring[|ring| - 1] in ring;
    }

    /** list_del: the element leaves the list; its own pointers stay. */
    method Del(entry: nat, ghost ring: seq<nat>, ghost k: nat)
      requires prev != next && Ring(ring) && 0 < k < |ring| && ring[k] == entry
      modifies prev, next
      ensures Ring(RemoveAt(ring, k)) && OnlyIn((set x | x in ring) - {entry})
    {
      assert NodeOk(prev[..], next[..], ring, k) && NodeOk(prev[..], next[..], ring, k - 1);
      assert NodeOk(prev[..], next[..], ring, After(k, |ring|));
      ghost var p0, n0 := prev[..], next[..];
      var p, n := prev[entry], next[entry];
      prev[n] := p;
      next[p] := n;
      Deleted(p0, n0, prev[..], next[..], ring, k);
      assert p in ring && n in ring;
    }

    /** list_del_init: and the element is a list of its own, with no element. */
    method DelInit(entry: nat, ghost ring: seq<nat>, ghost k: nat)
      requires prev != next && Ring(ring) && 0 < k < |ring| && ring[k] == entry
      modifies prev, next
      ensures Ring(RemoveAt(ring, k)) && Ring([entry]) && OnlyIn(set x | x in ring)
    {
      assert NodeOk(prev[..], next[..], ring, k);
      Del(entry, ring, k);
      ghost var p0, n0 := prev[..], next[..];
      Init(entry);
      RemovedOne(ring, k);
      OtherRing(p0, n0, prev[..], next[..], RemoveAt(ring, k));
    }

    /** list_replace: the new node takes the place of the old one, which may be the head, even alone. */
    method Replace(oldList: nat, newList: nat, ghost ring: seq<nat>, ghost k: nat)
      requires prev != next && Ring(ring) && k < |ring| && ring[k] == oldList && newList !in ring
               && newList < prev.Length
      modifies prev, next
      ensures Ring(ring[k := newList]) && OnlyIn((set x | x in ring) + {newList})
    {
      assert NodeOk(prev[..], next[..], ring, k) && NodeOk(prev[..], next[..], ring, After(k, |ring|));
      assert NodeOk(prev[..], next[..], ring, Before(k, |ring|));
      ghost var p0, n0 := prev[..], next[..];
      next[newList] := next[oldList];
      prev[next[newList]] := newList;
      prev[newList] := prev[oldList];
      next[prev[newList]] := newList;
      if |ring| > 1 { Replaced(p0, n0, prev[..], next[..], ring, k, newList); }
      assert ring[Before(k, |ring|)] in ring && ring[After(k, |ring|)] in ring;
    }

    /** list_is_empty */
    method IsEmpty(head: nat, ghost ring: seq<nat>) returns (r: bool)
      requires Ring(ring) && ring[0] == head
      ensures r <==> ring[1..] == []
    {
      assert NodeOk(prev[..], next[..], ring, 0);
      r := next[head] == head;
    }

    /** list_for_each visits the elements in order, each once, and ends. */
    method ForEach(head: nat, ghost ring: seq<nat>) returns (visited: seq<nat>)
      requires Ring(ring) && ring[0] == head
      ensures visited == ring[1..]
    {
      assert NodeOk(prev[..], next[..], ring, 0);
      visited := [];
      var pos := next[head];
      ghost var i: nat := 1;
      while pos != head
        invariant 0 < i <= |ring| && visited == ring[1..i] && pos == if i < |ring| then ring[i] else head
        decreases |ring| - i
      {
        assert NodeOk(prev[..], next[..], ring, i);
        visited := visited + [pos];
        pos := next[pos];
        i := i + 1;
      }
    }
  }

  lemma RemovedOne(ring: seq<nat>, k: nat)
    requires Distinct(ring) && k < |ring|
    ensures Distinct(RemoveAt(ring, k)) && forall x :: x in RemoveAt(ring, k) <==> x in ring && x != ring[k]
  {
    var t := RemoveAt(ring, k);
    assert forall j :: 0 <= j < |t| ==> t[j] == ring[if j < k then j else j + 1];
    forall x | x in ring && x != ring[k] ensures x in t {
      var j :| 0 <= j < |ring| && ring[j] == x;
      assert t[if j < k then j else j - 1] == x;
    }
  }

  lemma Replaced(prev: seq<nat>, next: seq<nat>, prev': seq<nat>, next': seq<nat>, ring: seq<nat>, k: nat, x: nat)
    requires Linked(prev, next, ring) && k < |ring| && |ring| > 1 && x !in ring && x < |prev|
    requires var p, n := ring[Before(k, |ring|)], ring[After(k, |ring|)];
             p < |next| && n < |prev| && prev' == prev[n := x][x := p] && next' == next[x := n][p := x]
    ensures Linked(prev', next', ring[k := x])
  {
    var t := ring[k := x];
    forall i: nat | i < |t| ensures NodeOk(prev', next', t, i) {
      assert NodeOk(prev, next, ring, i);
    }
  }
}
