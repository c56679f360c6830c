/** kernel/slab.c: objects of one size in one block; the free ones form a list threaded through their own
    first words, sorted by address. */
module Slab {
  import opened Collections

  const NULL: nat := 0

  const WORD_SIZE: nat := 8

  // ----- addresses

  /** Slot k of a block at pg. */
  function Slot(pg: nat, size: nat, k: nat): nat {
    pg + k * size
  }

  /** The word of the block at that address. */
  function WordAt(pg: nat, addr: nat): nat {
    if addr < pg then 0 else (addr - pg) / WORD_SIZE
  }

  /** Whole objects of the block. */
  function Total(block: nat, size: nat): nat
    requires size > 0
  {
    block / size
  }

  /** Slots whose first word is in the block: one more than Total when the size does not divide the block. */
  function Slots(block: nat, size: nat): nat
    requires size > 0
  {
    Total(block, size) + if block % size == 0 then 0 else 1
  }

  predicate Shape(pg: nat, size: nat, block: nat) {
    pg > 0 && size > 0 && size % WORD_SIZE == 0 && block % WORD_SIZE == 0 && size <= block
  }

  lemma SlotOrder(pg: nat, size: nat, k: nat, l: nat)
    requires k < l
    ensures Slot(pg, size, k) + size <= Slot(pg, size, l)
  {
    SplitProduct(k, l - k - 1, size);
  }

  lemma SplitProduct(k: nat, d: nat, size: nat)
    ensures (k + 1 + d) * size == k * size + size + d * size
    ensures d * size >= 0
  {}

  lemma SlotUnique(pg: nat, size: nat, k: nat, l: nat)
    requires size > 0 && Slot(pg, size, k) == Slot(pg, size, l)
    ensures k == l
  {
    if k < l { SlotOrder(pg, size, k, l); }
    if l < k { SlotOrder(pg, size, l, k); }
  }

  lemma DivRem(block: nat, size: nat, t: nat, r: nat)
    requires size > 0 && t == Total(block, size) && r == block % size
    ensures block == t * size + r && r < size
  {}

  /** Slot k starts inside the block exactly for k below Slots, and ends inside it exactly for k below Total. */
  lemma SlotInBlock(pg: nat, size: nat, block: nat, k: nat)
    requires size > 0
    ensures Slot(pg, size, k) < pg + block <==> k < Slots(block, size)
    ensures Slot(pg, size, k) + size <= pg + block <==> k < Total(block, size)
  {
    var t, r := Total(block, size), block % size;
    DivRem(block, size, t, r);
    if k < t { SlotOrder(pg, size, k, t); }
    if t < k { SlotOrder(pg, size, t, k); }
  }

  lemma SlotWord(pg: nat, size: nat, block: nat, k: nat)
    requires Shape(pg, size, block) && k < Slots(block, size)
    ensures pg <= Slot(pg, size, k) && WordAt(pg, Slot(pg, size, k)) < block / WORD_SIZE
    ensures WordAt(pg, Slot(pg, size, k)) * WORD_SIZE == Slot(pg, size, k) - pg
  {
    SlotInBlock(pg, size, block, k);
    Multiple(k, size, k * size);
  }

  lemma Multiple(k: nat, size: nat, p: nat)
    requires size % WORD_SIZE == 0 && p == k * size
    ensures p % WORD_SIZE == 0
  {
    var s := size / WORD_SIZE;
    assert size == WORD_SIZE * s;
    Regroup(k, s, p);
  }

  lemma Regroup(k: nat, s: nat, p: nat)
    requires p == k * (WORD_SIZE * s)
    ensures p == WORD_SIZE * (k * s)
  {}

  /** Word w belongs to slot k, as far as the block goes. */
  predicate InSlot(pg: nat, size: nat, k: nat, w: nat) {
    Slot(pg, size, k) <= pg + w * WORD_SIZE < Slot(pg, size, k) + size
  }

  /** Distinct slots share no word: live objects do not overlap. */
  lemma SlotsDisjoint(pg: nat, size: nat, k: nat, l: nat, w: nat)
    requires InSlot(pg, size, k, w) && InSlot(pg, size, l, w)
    ensures k == l
  {
    if k < l { SlotOrder(pg, size, k, l); }
    if l < k { SlotOrder(pg, size, l, k); }
  }

  lemma FirstWord(pg: nat, size: nat, block: nat, k: nat)
    requires Shape(pg, size, block) && k < Slots(block, size)
    ensures InSlot(pg, size, k, WordAt(pg, Slot(pg, size, k)))
  {
    SlotWord(pg, size, block, k);
  }

  // ----- the in-band list

  /** Address of entry i of the list, NULL past its end. */
  function At(pg: nat, size: nat, list: seq<nat>, i: nat): nat {
    if i < |list| then Slot(pg, size, list[i]) else NULL
  }

  ghost predicate Link(pg: nat, size: nat, words: seq<nat>, list: seq<nat>, i: nat) {
    i < |list| && WordAt(pg, Slot(pg, size, list[i])) < |words|
    && words[WordAt(pg, Slot(pg, size, list[i]))] == At(pg, size, list, i + 1)
  }

  /** The words thread exactly the slots of the list, in order. */
  ghost predicate Threaded(pg: nat, size: nat, words: seq<nat>, objs: nat, list: seq<nat>) {
    objs == At(pg, size, list, 0) && forall i: nat :: i < |list| ==> Link(pg, size, words, list, i)
  }

  /** The free slots: sorted, in the block, all but the tail slot counted, the tail slot last. */
  ghost predicate Listed(size: nat, block: nat, list: seq<nat>, freeObj: nat)
    requires size > 0
  {
    && Ascending(list) && (forall k :: k in list ==> k < Slots(block, size))
    && |list| == freeObj + Slots(block, size) - Total(block, size)
    && (Slots(block, size) != Total(block, size) ==> Total(block, size) in list)
  }

  /** Objects handed out. */
  ghost function LiveSet(size: nat, block: nat, list: seq<nat>): set<nat>
    requires size > 0
  {
    set k: nat | k < Total(block, size) && k !in list
  }

  /** The tail slot is never at the head while an object is free, and is all that is left when none is. */
  lemma HeadIsObject(size: nat, block: nat, list: seq<nat>, freeObj: nat)
    requires size > 0 && Listed(size, block, list, freeObj)
    ensures freeObj > 0 ==> list != [] && list[0] < Total(block, size) && list[0] !in LiveSet(size, block, list)
    ensures freeObj > 0 ==> forall j: nat :: j < list[0] ==> j !in list
    ensures freeObj == 0 ==> forall k: nat :: k < Total(block, size) ==> k !in list
  {
    var t := Total(block, size);
    if Slots(block, size) != t {
      var i :| 0 <= i < |list| && list[i] == t;
      assert i < |list| - 1 ==> list[i] < list[|list| - 1];
      assert list[|list| - 1] in list;
      assert 0 < i ==> list[0] < list[i];
    } else if list != [] {
      assert list[0] in list;
    }
  }

  lemma PopKeeps(size: nat, block: nat, list: seq<nat>, freeObj: nat)
    requires size > 0 && Listed(size, block, list, freeObj) && freeObj > 0
    ensures list != [] && list[0] < Total(block, size) && list[0] !in LiveSet(size, block, list)
    ensures Listed(size, block, list[1..], freeObj - 1)
    ensures LiveSet(size, block, list[1..]) == LiveSet(size, block, list) + {list[0]}
  {
    HeadIsObject(size, block, list, freeObj);
    assert list == [list[0]] + list[1..];
    assert list[0] !in list[1..];
    forall k | k in list[1..] ensures k < Slots(block, size) { assert k in list; }
  }

  lemma InsertFacts(list: seq<nat>, i: nat, k: nat)
    requires i <= |list| && Ascending(list)
    requires (forall j :: 0 <= j < i ==> list[j] < k) && forall j :: i <= j < |list| ==> k < list[j]
    ensures Ascending(InsertAt(list, i, k)) && forall x :: x in InsertAt(list, i, k) <==> x in list || x == k
  {
    var t := InsertAt(list, i, k);
    assert list == list[..i] + list[i..] && t[i] == k;
    forall x ensures x in t <==> x in list || x == k {}
  }

  lemma InsertKeeps(size: nat, block: nat, list: seq<nat>, freeObj: nat, i: nat, k: nat)
    requires size > 0 && Listed(size, block, list, freeObj) && i <= |list| && k in LiveSet(size, block, list)
    requires (forall j :: 0 <= j < i ==> list[j] < k) && forall j :: i <= j < |list| ==> k < list[j]
    ensures Listed(size, block, InsertAt(list, i, k), freeObj + 1)
    ensures LiveSet(size, block, InsertAt(list, i, k)) == LiveSet(size, block, list) - {k}
  {
    InsertFacts(list, i, k);
    hide InsertAt, Ascending;
    TotalSlots(size, block);
    InsertLength(list, i, k);
  }

  lemma InsertLength(list: seq<nat>, i: nat, k: nat)
    requires i <= |list|
    ensures |InsertAt(list, i, k)| == |list| + 1
  {}

  lemma TotalSlots(size: nat, block: nat)
    requires size > 0
    ensures Total(block, size) <= Slots(block, size)
  {}

  lemma ListedInBlock(size: nat, block: nat, list: seq<nat>, freeObj: nat)
    requires size > 0 && Listed(size, block, list, freeObj)
    ensures InBlock(size, block, list)
  {
    forall j | 0 <= j < |list| ensures list[j] < Slots(block, size) { assert list[j] in list; }
  }

  lemma PopThreads(pg: nat, size: nat, words: seq<nat>, objs: nat, list: seq<nat>)
    requires Threaded(pg, size, words, objs, list) && list != []
    ensures WordAt(pg, objs) < |words| && Threaded(pg, size, words, words[WordAt(pg, objs)], list[1..])
  {
    assert Link(pg, size, words, list, 0);
    forall i: nat | i < |list[1..]| ensures Link(pg, size, words, list[1..], i) {
      assert Link(pg, size, words, list, i + 1);
    }
  }

  /** Storing k's next pointer and, unless k becomes the head, pointing its predecessor at k. */
  ghost function InsertWords(pg: nat, size: nat, words: seq<nat>, list: seq<nat>, i: nat, k: nat): seq<nat>
    requires i <= |list|
    requires WordAt(pg, Slot(pg, size, k)) < |words|
    requires i > 0 ==> WordAt(pg, Slot(pg, size, list[i - 1])) < |words|
  {
    var w := words[WordAt(pg, Slot(pg, size, k)) := At(pg, size, list, i)];
    if i == 0 then w else w[WordAt(pg, Slot(pg, size, list[i - 1])) := Slot(pg, size, k)]
  }

  ghost predicate InBlock(size: nat, block: nat, list: seq<nat>)
    requires size > 0
  {
    Ascending(list) && forall j :: 0 <= j < |list| ==> list[j] < Slots(block, size)
  }

  lemma SlotWordsDiffer(pg: nat, size: nat, block: nat, k: nat, l: nat)
    requires Shape(pg, size, block) && k < Slots(block, size) && l < Slots(block, size) && k != l
    ensures WordAt(pg, Slot(pg, size, k)) != WordAt(pg, Slot(pg, size, l))
  {
    SlotWord(pg, size, block, k);
    SlotWord(pg, size, block, l);
    if Slot(pg, size, k) == Slot(pg, size, l) { SlotUnique(pg, size, k, l); }
  }

  lemma InsertThreads(pg: nat, size: nat, block: nat, words: seq<nat>, objs: nat, list: seq<nat>, i: nat, k: nat)
    requires Shape(pg, size, block) && |words| == block / WORD_SIZE && InBlock(size, block, list)
    requires Threaded(pg, size, words, objs, list) && i <= |list| && k < Slots(block, size) && k !in list
    ensures WordAt(pg, Slot(pg, size, k)) < |words|
    ensures i > 0 ==> WordAt(pg, Slot(pg, size, list[i - 1])) < |words|
    ensures Threaded(pg, size, InsertWords(pg, size, words, list, i, k), if i == 0 then Slot(pg, size, k) else objs,
                     InsertAt(list, i, k))
  {
    SlotWord(pg, size, block, k);
    if i > 0 { SlotWord(pg, size, block, list[i - 1]); }
    var list', words' := InsertAt(list, i, k), InsertWords(pg, size, words, list, i, k);
    forall j: nat | j < |list'| ensures Link(pg, size, words', list', j) {
      if j != i {
        var o := if j < i then j else j - 1;
        assert Link(pg, size, words, list, o) && list'[j] == list[o];
        SlotWordsDiffer(pg, size, block, list[o], k);
        if i > 0 && o != i - 1 { SlotWordsDiffer(pg, size, block, list[o], list[i - 1]); }
      } else if i > 0 {
        SlotWordsDiffer(pg, size, block, list[i - 1], k);
      }
    }
  }

  /** Words outside the listed slots do not matter to the list. */
  lemma OtherWords(pg: nat, size: nat, words: seq<nat>, words': seq<nat>, objs: nat, list: seq<nat>)
    requires Threaded(pg, size, words, objs, list) && |words'| == |words|
    requires forall i: nat :: i < |list| && WordAt(pg, Slot(pg, size, list[i])) < |words| ==>
               words'[WordAt(pg, Slot(pg, size, list[i]))] == words[WordAt(pg, Slot(pg, size, list[i]))]
    ensures Threaded(pg, size, words', objs, list)
  {
    forall i: nat | i < |list| ensures Link(pg, size, words', list, i) { assert Link(pg, size, words, list, i); }
  }

  // ----- the slab

  class Slab {
    const pg: nat
    const sizeObj: nat
    const block: nat // POWER_OF_2(order) * PAGE_SIZE
    const totalObj: nat
    const words: array<nat> // the block
    var objs: nat
    var freeObj: nat
    ghost var list: seq<nat>

    ghost predicate Valid()
      reads this, words
    {
      && Shape(pg, sizeObj, block) && words.Length == block / WORD_SIZE && totalObj == Total(block, sizeObj)
      && Listed(sizeObj, block, list, freeObj) && Threaded(pg, sizeObj, words[..], objs, list)
    }

    /** The objects handed out, by slot. */
    ghost function Live(): set<nat>
      requires sizeObj > 0
      reads this`list
    {
      LiveSet(sizeObj, block, list)
    }

    /** Word w lies in a live object. */
    ghost predicate Owned(w: nat)
      requires sizeObj > 0
      reads this`list
    {
      exists k :: k in Live() && InSlot(pg, sizeObj, k, w)
    }

    /** slab_create_ex: every object is free; the list may have one slot more than there are objects. */
    constructor (pageAddr: nat, size: nat, bytes: nat)
      requires Shape(pageAddr, size, bytes)
      ensures Valid() && fresh(words) && pg == pageAddr && sizeObj == size && block == bytes
      ensures Live() == {} && freeObj == totalObj
    {
      pg, sizeObj, block, totalObj := pageAddr, size, bytes, bytes / size;
      objs, freeObj := pageAddr, bytes / size;
      words := new nat[bytes / WORD_SIZE](_ => 0);
      list := Upto(Slots(bytes, size));
      new;
      Thread();
      UptoFacts(Slots(block, sizeObj));
    }

    // lines 22-31
    method Thread()
      requires Shape(pg, sizeObj, block) && words.Length == block / WORD_SIZE && objs == pg
      requires list == Upto(Slots(block, sizeObj))
      modifies words
      ensures Threaded(pg, sizeObj, words[..], objs, list)
    {
      UptoFacts(Slots(block, sizeObj));
      SlotInBlock(pg, sizeObj, block, 0);
      var ptr := pg;
      ghost var k: nat := 0;
      hide Slot, WordAt, Slots, Total;
      while ptr + sizeObj < pg + block
        invariant k < |list| == Slots(block, sizeObj) && ptr == Slot(pg, sizeObj, k)
        invariant forall i: nat :: i < k ==> Link(pg, sizeObj, words[..], list, i)
        decreases |list| - k
      {
        NextSlot(pg, sizeObj, block, k);
        ghost var before := words[..];
        SlotWord(pg, sizeObj, block, k);
        words[WordAt(pg, ptr)] := ptr + sizeObj;
        StillLinked(pg, sizeObj, block, before, words[..], list, k);
        ptr := ptr + sizeObj;
        k := k + 1;
      }
      NextSlot(pg, sizeObj, block, k);
      ghost var before := words[..];
      SlotWord(pg, sizeObj, block, k);
      words[WordAt(pg, ptr)] := NULL;
      StillLinked(pg, sizeObj, block, before, words[..], list, k);
      FirstSlot(pg, sizeObj);
    }

    /** slab_alloc: NULL exactly when every object is live; otherwise the free object of lowest address, which
        lies inside the block. No memory is written. */
    method Alloc() returns (ret: nat)
      requires Valid()
      modifies this
      ensures Valid()
      ensures ret == NULL <==> old(freeObj) == 0
      ensures ret == NULL <==> forall k: nat :: k < totalObj ==> k in old(Live())
      ensures ret == NULL ==> Live() == old(Live()) && freeObj == old(freeObj)
      ensures ret != NULL ==>
                exists k: nat ::
                  && k < totalObj && k !in old(Live()) && (forall j: nat :: j < k ==> j in old(Live()))
                  && ret == Slot(pg, sizeObj, k) && pg <= ret && ret + sizeObj <= pg + block
                  && Live() == old(Live()) + {k} && freeObj == old(freeObj) - 1
    {
      HeadIsObject(sizeObj, block, list, freeObj);
      assert freeObj != 0 ==> list[0] !in Live();
      hide Slot, WordAt, Slots, Total;
      ret := NULL;
      if freeObj != 0 {
        PopKeeps(sizeObj, block, list, freeObj);
        PopThreads(pg, sizeObj, words[..], objs, list);
        SlotInBlock(pg, sizeObj, block, list[0]);
        SlotAbove(pg, sizeObj, list[0]);
        ret := objs;
        objs := words[WordAt(pg, ret)];
        freeObj := freeObj - 1;
        list := list[1..];
      }
    }

    // lines 82-87: the place of obj in the list
    method FindPlace(obj: nat, ghost k: nat) returns (last: nat, ptr: nat, ghost i: nat)
      requires Valid() && obj == Slot(pg, sizeObj, k) && list != [] && list[0] < k && k !in list
      ensures 0 < i <= |list| && last == Slot(pg, sizeObj, list[i - 1]) && ptr == At(pg, sizeObj, list, i)
      ensures (forall j :: 0 <= j < i ==> list[j] < k) && forall j :: i <= j < |list| ==> k < list[j]
    {
      last, ptr, i := NULL, objs, 0;
      hide Listed, Total;
      while ptr != NULL && ptr < obj
        invariant i <= |list| && ptr == At(pg, sizeObj, list, i)
        invariant i == 0 || last == Slot(pg, sizeObj, list[i - 1])
        invariant forall j :: 0 <= j < i ==> list[j] < k
        decreases |list| - i
      {
        assert Link(pg, sizeObj, words[..], list, i);
        Compare(pg, sizeObj, list[i], k);
        last := ptr;
        ptr := words[WordAt(pg, ptr)];
        i := i + 1;
      }
      PlaceFound(pg, sizeObj, block, list, freeObj, i, k);
    }

    /** slab_free of a live object: it is free again, and no word of another live object changes. */
    method Free(obj: nat, ghost k: nat)
      requires Valid() && k in Live() && obj == Slot(pg, sizeObj, k)
      modifies this, words
      ensures Valid() && Live() == old(Live()) - {k} && freeObj == old(freeObj) + 1
      ensures forall w: nat :: w < words.Length && Owned(w) ==> words[w] == old(words[w])
    {
      ghost var i: nat := 0;
      if objs == NULL {
        EmptyList(pg, sizeObj, list);
        Link1(obj, 0, k);
      } else if obj < objs {
        Before(pg, sizeObj, block, list, freeObj, k);
        Link1(obj, 0, k);
      } else {
        NotBefore(pg, sizeObj, list, k);
        var last, ptr;
        last, ptr, i := FindPlace(obj, k);
        Link2(obj, last, ptr, i, k);
      }
      freeObj := freeObj + 1;
    }

    // lines 74-75 and 78-79: obj becomes the head
    method Link1(obj: nat, ghost i: nat, ghost k: nat)
      requires Valid() && k in Live() && obj == Slot(pg, sizeObj, k) && i == 0
      requires forall j :: 0 <= j < |list| ==> k < list[j]
      modifies this`objs, this`list, words
      ensures LinkedIn(old(list), 0, k) && freeObj == old(freeObj)
      ensures forall w: nat :: w < words.Length && Owned(w) ==> words[w] == old(words[w])
    {
      InsertKeeps(sizeObj, block, list, freeObj, 0, k);
      ListedInBlock(sizeObj, block, list, freeObj);
      TotalSlots(sizeObj, block);
      InsertThreads(pg, sizeObj, block, words[..], objs, list, 0, k);
      ghost var before := words[..];
      words[WordAt(pg, obj)] := objs;
      assert words[..] == InsertWords(pg, sizeObj, before, list, 0, k);
      UnownedKept(pg, sizeObj, block, before, list, 0, k);
      objs := obj;
      list := InsertAt(list, 0, k);
    }

    // lines 88-89: obj goes between last and ptr
    method Link2(obj: nat, last: nat, ptr: nat, ghost i: nat, ghost k: nat)
      requires Valid() && k in Live() && obj == Slot(pg, sizeObj, k)
      requires 0 < i <= |list| && last == Slot(pg, sizeObj, list[i - 1]) && ptr == At(pg, sizeObj, list, i)
      requires (forall j :: 0 <= j < i ==> list[j] < k) && forall j :: i <= j < |list| ==> k < list[j]
      modifies this`list, words
      ensures LinkedIn(old(list), i, k) && freeObj == old(freeObj)
      ensures forall w: nat :: w < words.Length && Owned(w) ==> words[w] == old(words[w])
    {
      InsertKeeps(sizeObj, block, list, freeObj, i, k);
      ListedInBlock(sizeObj, block, list, freeObj);
      TotalSlots(sizeObj, block);
      InsertThreads(pg, sizeObj, block, words[..], objs, list, i, k);
      ghost var before := words[..];
      words[WordAt(pg, obj)] := ptr;
      words[WordAt(pg, last)] := obj;
      assert words[..] == InsertWords(pg, sizeObj, before, list, i, k);
      UnownedKept(pg, sizeObj, block, before, list, i, k);
      list := InsertAt(list, i, k);
    }

    /** k joined the list at position i; only the counter is behind. */
    ghost predicate LinkedIn(was: seq<nat>, i: nat, k: nat)
      reads this, words
    {
      && Shape(pg, sizeObj, block) && words.Length == block / WORD_SIZE && totalObj == Total(block, sizeObj)
      && i <= |was| && list == InsertAt(was, i, k)
      && Listed(sizeObj, block, list, freeObj + 1) && Threaded(pg, sizeObj, words[..], objs, list)
      && Live() == LiveSet(sizeObj, block, was) - {k}
    }

    /** Whatever its owner stores in a live object, the slab is not disturbed. */
    method UserWrite(w: nat, value: nat)
      requires Valid() && w < words.Length && Owned(w)
      modifies words
      ensures Valid() && words[..] == old(words[..])[w := value]
    {
      ghost var k :| k in Live() && InSlot(pg, sizeObj, k, w);
      ghost var before := words[..];
      words[w] := value;
      forall i: nat | i < |list| ensures WordAt(pg, Slot(pg, sizeObj, list[i])) != w {
        assert list[i] in list;
        FirstWord(pg, sizeObj, block, list[i]);
        if WordAt(pg, Slot(pg, sizeObj, list[i])) == w { SlotsDisjoint(pg, sizeObj, k, list[i], w); }
      }
      OtherWords(pg, sizeObj, before, words[..], objs, list);
    }

    // slab_contain
    predicate Contain(addr: nat) {
      pg <= addr < pg + block
    }

    // slab_empty
    predicate Empty()
      reads this`freeObj
    {
      totalObj == freeObj
    }

    // slab_full
    predicate Full()
      reads this`freeObj
    {
      freeObj == 0
    }

    /** The counters say how many objects are live. */
    lemma Counters()
      requires Valid()
      ensures |Live()| + freeObj == totalObj
      ensures Empty() <==> Live() == {}
      ensures Full() <==> forall k: nat :: k < totalObj ==> k in Live()
    {
      LiveCount(sizeObj, block, list, freeObj);
      HeadIsObject(sizeObj, block, list, freeObj);
    }
  }

  // ----- helpers

  function Upto(n: nat): seq<nat> {
    seq(n, i => i)
  }

  lemma UptoFacts(n: nat)
    ensures |Upto(n)| == n && Ascending(Upto(n)) && forall k: nat :: k in Upto(n) <==> k < n
  {
    forall k: nat | k < n ensures k in Upto(n) { assert Upto(n)[k] == k; }
  }

  lemma FirstSlot(pg: nat, size: nat)
    ensures Slot(pg, size, 0) == pg
  {}

  lemma SlotAbove(pg: nat, size: nat, k: nat)
    ensures pg <= Slot(pg, size, k)
  {}

  lemma NextSlot(pg: nat, size: nat, block: nat, k: nat)
    requires size > 0 && k < Slots(block, size)
    ensures Slot(pg, size, k) + size == Slot(pg, size, k + 1)
    ensures Slot(pg, size, k) + size < pg + block <==> k + 1 < Slots(block, size)
  {
    SlotInBlock(pg, size, block, k + 1);
    assert (k + 1) * size == k * size + size;
  }

  /** Writing slot k's word completes link k and leaves the earlier links alone. */
  lemma StillLinked(pg: nat, size: nat, block: nat, words: seq<nat>, words': seq<nat>, list: seq<nat>, k: nat)
    requires Shape(pg, size, block) && |words| == block / WORD_SIZE && list == Upto(Slots(block, size)) && k < |list|
    requires forall i: nat :: i < k ==> Link(pg, size, words, list, i)
    requires WordAt(pg, Slot(pg, size, k)) < |words|
    requires words' == words[WordAt(pg, Slot(pg, size, k)) := At(pg, size, list, k + 1)]
    ensures forall i: nat :: i < k + 1 ==> Link(pg, size, words', list, i)
  {
    forall i: nat | i < k ensures Link(pg, size, words', list, i) {
      assert Link(pg, size, words, list, i);
      SlotWordsDiffer(pg, size, block, i, k);
    }
  }

  lemma Compare(pg: nat, size: nat, k: nat, l: nat)
    requires size > 0
    ensures Slot(pg, size, k) < Slot(pg, size, l) <==> k < l
  {
    if k < l { SlotOrder(pg, size, k, l); }
    if l < k { SlotOrder(pg, size, l, k); }
  }

  lemma PlaceFound(pg: nat, size: nat, block: nat, list: seq<nat>, freeObj: nat, i: nat, k: nat)
    requires pg > 0 && size > 0 && Listed(size, block, list, freeObj) && i <= |list| && list != [] && list[0] < k
             && k !in list
    requires At(pg, size, list, i) == NULL || At(pg, size, list, i) >= Slot(pg, size, k)
    ensures 0 < i && forall j :: i <= j < |list| ==> k < list[j]
  {
    Compare(pg, size, list[0], k);
    if i < |list| { Compare(pg, size, list[i], k); }
    forall j | i <= j < |list| ensures k < list[j] { assert list[i] in list; }
  }

  lemma EmptyList(pg: nat, size: nat, list: seq<nat>)
    requires pg > 0 && At(pg, size, list, 0) == NULL
    ensures list == []
  {}

  lemma Before(pg: nat, size: nat, block: nat, list: seq<nat>, freeObj: nat, k: nat)
    requires size > 0 && Listed(size, block, list, freeObj) && list != [] && Slot(pg, size, k) < At(pg, size, list, 0)
    ensures forall j :: 0 <= j < |list| ==> k < list[j]
  {
    Compare(pg, size, k, list[0]);
  }

  lemma NotBefore(pg: nat, size: nat, list: seq<nat>, k: nat)
    requires size > 0 && pg > 0 && At(pg, size, list, 0) != NULL && k !in list
             && At(pg, size, list, 0) <= Slot(pg, size, k)
    ensures list != [] && list[0] < k
  {
    Compare(pg, size, k, list[0]);
    assert list[0] in list;
  }

  /** Insertion writes only words of listed slots and of the freed one. */
  lemma UnownedKept(pg: nat, size: nat, block: nat, words: seq<nat>, list: seq<nat>, i: nat, k: nat)
    requires Shape(pg, size, block) && |words| == block / WORD_SIZE && i <= |list|
    requires (forall j :: j in list ==> j < Slots(block, size)) && k in LiveSet(size, block, list)
    requires WordAt(pg, Slot(pg, size, k)) < |words|
    requires i > 0 ==> WordAt(pg, Slot(pg, size, list[i - 1])) < |words|
    ensures forall w: nat, l: nat ::
              w < |words| && l in LiveSet(size, block, InsertAt(list, i, k)) && InSlot(pg, size, l, w) ==>
              InsertWords(pg, size, words, list, i, k)[w] == words[w]
  {
    var list' := InsertAt(list, i, k);
    assert k == list'[i] && k in list';
    forall w: nat, l: nat | w < |words| && l in LiveSet(size, block, list') && InSlot(pg, size, l, w)
      ensures InsertWords(pg, size, words, list, i, k)[w] == words[w]
    {
      FirstWord(pg, size, block, k);
      if w == WordAt(pg, Slot(pg, size, k)) { SlotsDisjoint(pg, size, l, k, w); }
      if i > 0 {
        assert list'[i - 1] == list[i - 1] && list[i - 1] in list;
        FirstWord(pg, size, block, list[i - 1]);
        if w == WordAt(pg, Slot(pg, size, list[i - 1])) { SlotsDisjoint(pg, size, l, list[i - 1], w); }
      }
    }
  }

  lemma LiveCount(size: nat, block: nat, list: seq<nat>, freeObj: nat)
    requires size > 0 && Listed(size, block, list, freeObj)
    ensures |LiveSet(size, block, list)| + freeObj == Total(block, size)
  {
    var t, live := Total(block, size), LiveSet(size, block, list);
    var free := Elements(list) - {t};
    DistinctCount(list);
    if Slots(block, size) != t {
      assert t in Elements(list);
      assert |free| == freeObj;
    } else {
      assert t !in Elements(list);
      assert free == Elements(list);
    }
    Partition(live, free, t);
  }

  lemma Partition(a: set<nat>, b: set<nat>, n: nat)
    requires a !! b && forall k: nat :: k in a || k in b <==> k < n
    ensures |a| + |b| == n
  {
    assert a + b == Below(n);
  }
}
