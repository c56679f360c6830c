/** The spinlock of kernel/spinlock.c: any number of harts interleave its single loads, swaps and stores. */
module Spinlock {
  datatype Call = Acquire | Release | Query

  /** Where a hart is. `inside` says whether it made the call between an acquire and its release. */
  datatype Pc =
    | Outside // holds nothing, runs other code
    | Inside // between acquire and release
    | LoadLocked(call: Call, inside: bool) // spinlock_holding: about to read locked
    | LoadCpu(call: Call, inside: bool) // locked was set: about to read cpu_id
    | Answered(result: bool, inside: bool) // spinlock_holding has returned
    | Panicked(call: Call, inside: bool)
    | Swap(inside: bool) // line 29
    | SetCpu // line 40
    | ClearCpu // line 50
    | Unlock // line 67

  datatype State = State(locked: bool, cpuId: int, pc: seq<Pc>)

  // spinlock_init, with every hart outside
  function Init(harts: nat): State {
    State(false, -1, seq(harts, _ => Outside))
  }

  // what a caller of spinlock_holding does with its result
  function Decide(call: Call, inside: bool, result: bool): Pc {
    match call
    case Acquire => if result then Panicked(call, inside) else Swap(inside)
    case Release => if result then ClearCpu else Panicked(call, inside)
    case Query => Answered(result, inside)
  }

  /** Hart h takes its next step; a hart that is free to choose makes `call`. */
  function Step(s: State, h: nat, call: Call): State
    requires h < |s.pc|
  {
    match s.pc[h]
    case Outside => s.(pc := s.pc[h := LoadLocked(call, false)])
    case Inside => s.(pc := s.pc[h := LoadLocked(call, true)])
    case LoadLocked(c, inside) =>
      s.(pc := s.pc[h := if s.locked then LoadCpu(c, inside) else Decide(c, inside, false)])
    case LoadCpu(c, inside) => s.(pc := s.pc[h := Decide(c, inside, s.cpuId == h)])
    case Answered(_, inside) => s.(pc := s.pc[h := if inside then Inside else Outside])
    case Panicked(_, _) => s
    case Swap(inside) => s.(locked := true, pc := s.pc[h := if s.locked then Swap(inside) else SetCpu])
    case SetCpu => s.(cpuId := h, pc := s.pc[h := Inside])
    case ClearCpu => s.(cpuId := -1, pc := s.pc[h := Unlock])
    case Unlock => s.(locked := false, pc := s.pc[h := Outside])
  }

  /** A schedule: which hart moves next, and the call it makes when it is free to choose one. */
  type Schedule = seq<(nat, Call)>

  function Run(s: State, schedule: Schedule): (t: State)
    requires forall i :: 0 <= i < |schedule| ==> schedule[i].0 < |s.pc|
    ensures |t.pc| == |s.pc|
    decreases |schedule|
  {
    if schedule == [] then s
    else Step(Run(s, schedule[..|schedule| - 1]), schedule[|schedule| - 1].0, schedule[|schedule| - 1].1)
  }

  /** The hart has cpu_id set to itself. */
  predicate Marked(p: Pc) {
    match p
    case Inside => true
    case ClearCpu => true
    case LoadLocked(_, inside) => inside
    case LoadCpu(_, inside) => inside
    case Answered(_, inside) => inside
    case Panicked(_, inside) => inside
    case _ => false
  }

  /** The hart won the swap and has not yet stored 0 again. */
  predicate Holds(p: Pc) {
    Marked(p) || p.SetCpu? || p.Unlock? || p == Swap(true)
  }

  /** The two-field check was right: its answer is whether the caller is inside, acquire panics exactly inside
      and release exactly outside. */
  predicate Exact(p: Pc) {
    match p
    case Answered(r, inside) => r == inside
    case Panicked(c, inside) => !c.Query? && inside == c.Acquire?
    case Swap(inside) => !inside
    case _ => true
  }

  ghost predicate Inv(s: State) {
    && (forall h: nat :: h < |s.pc| ==> Exact(s.pc[h]))
    && (forall h: nat :: h < |s.pc| && Holds(s.pc[h]) ==> s.locked)
    && (forall h: nat, k: nat :: h < |s.pc| && k < |s.pc| && Holds(s.pc[h]) && Holds(s.pc[k]) ==> h == k)
    && (forall h: nat :: h < |s.pc| ==> (s.cpuId == h <==> Marked(s.pc[h])))
    && (s.locked ==> exists h: nat :: h < |s.pc| && Holds(s.pc[h]))
    && -1 <= s.cpuId < |s.pc|
  }

  lemma StepExact(s: State, h: nat, call: Call)
    requires Inv(s) && h < |s.pc|
    ensures forall k: nat :: k < |s.pc| ==> Exact(Step(s, h, call).pc[k])
  {
    var t := Step(s, h, call);
    assert Exact(s.pc[h]) && (s.cpuId == h <==> Marked(s.pc[h]));
    forall k: nat | k < |t.pc| ensures Exact(t.pc[k]) { assert Exact(s.pc[k]); }
  }

  lemma StepKeeps(s: State, h: nat, call: Call)
    requires Inv(s) && h < |s.pc|
    ensures Inv(Step(s, h, call))
  {
    var t := Step(s, h, call);
    StepExact(s, h, call);
    hide Exact;
    assert forall k: nat :: k < |s.pc| && k != h ==> t.pc[k] == s.pc[k];
    if t.locked {
      if Holds(t.pc[h]) {
      } else {
        var k: nat :| k < |s.pc| && Holds(s.pc[k]);
        assert Holds(t.pc[k]);
      }
    }
  }

  lemma {:induction false} RunKeeps(harts: nat, schedule: Schedule)
    requires forall i :: 0 <= i < |schedule| ==> schedule[i].0 < harts
    ensures Inv(Run(Init(harts), schedule))
    decreases |schedule|
  {
    if schedule != [] {
      RunKeeps(harts, schedule[..|schedule| - 1]);
      StepKeeps(Run(Init(harts), schedule[..|schedule| - 1]), schedule[|schedule| - 1].0, schedule[|schedule| - 1].1);
    }
  }

  /** Mutual exclusion: in every interleaving at most one hart is between acquire and release. */
  lemma {:induction false} MutualExclusion(harts: nat, schedule: Schedule, h: nat, k: nat)
    requires (forall i :: 0 <= i < |schedule| ==> schedule[i].0 < harts) && h < harts && k < harts
    ensures var s := Run(Init(harts), schedule); Holds(s.pc[h]) && Holds(s.pc[k]) ==> h == k
  {
    RunKeeps(harts, schedule);
  }

  /** cpu_id names a hart only while that hart holds the lock. */
  lemma {:induction false} CpuIdHolds(harts: nat, schedule: Schedule, h: nat)
    requires (forall i :: 0 <= i < |schedule| ==> schedule[i].0 < harts) && h < harts
    ensures var s := Run(Init(harts), schedule); s.cpuId == h ==> s.locked && Holds(s.pc[h])
  {
    RunKeeps(harts, schedule);
    var pc := Run(Init(harts), schedule).pc;
    assert Marked(pc[h]) ==> Holds(pc[h]);
  }

  /** spinlock_holding is exact for the hart that calls it, although other harts may move between its two
      reads: in every interleaving a returned answer is whether the caller is inside, acquire panics exactly
      when called inside, and release exactly when called outside. */
  lemma {:induction false} HoldingIsExact(harts: nat, schedule: Schedule, h: nat)
    requires (forall i :: 0 <= i < |schedule| ==> schedule[i].0 < harts) && h < harts
    ensures var p := Run(Init(harts), schedule).pc[h];
            && (p.Answered? ==> p.result == p.inside)
            && (p.Panicked? ==> (p.call.Acquire? && p.inside) || (p.call.Release? && !p.inside))
            && (p.Swap? ==> !p.inside)
  {
    RunKeeps(harts, schedule);
    var s := Run(Init(harts), schedule);
    assert Exact(s.pc[h]);
  }

  // ----- whole calls

  /** How many steps of the schedule are the hart's own. */
  function Own(schedule: Schedule, h: nat): nat
    decreases |schedule|
  {
    if schedule == [] then 0
    else Own(schedule[..|schedule| - 1], h) + if schedule[|schedule| - 1].0 == h then 1 else 0
  }

  /** The first own step of the hart, if there is one, makes this call. */
  ghost predicate Calls(schedule: Schedule, h: nat, call: Call) {
    forall i :: 0 <= i < |schedule| && schedule[i].0 == h && Own(schedule[..i], h) == 0 ==> schedule[i].1 == call
  }

  predicate Harts(schedule: Schedule, n: nat) {
    forall i :: 0 <= i < |schedule| ==> schedule[i].0 < n
  }

  /** Where a hart can be after n own steps of a call that it makes inside or outside. */
  predicate Along(p: Pc, call: Call, inside: bool, n: nat) {
    match n
    case 0 => p == if inside then Inside else Outside
    case 1 => p == LoadLocked(call, inside)
    case 2 => p == LoadCpu(call, inside) || (!inside && p == match call
                                                              case Acquire => Swap(false)
                                                              case Release => Panicked(call, false)
                                                              case Query => Answered(false, false))
    case 3 =>
      (match call
       case Acquire => if inside then p == Panicked(call, true) else p == Swap(false) || p == SetCpu
       case Release => if inside then p == ClearCpu else p == Panicked(call, false)
       case Query => p == Answered(inside, inside) || (!inside && p == Outside))
    case 4 => call.Release? && inside ==> p == Unlock
    case 5 => call.Release? && inside ==> p == Outside
    case _ => true
  }

  lemma AlongStep(s: State, h: nat, call: Call, c: Call, inside: bool, n: nat)
    requires Inv(s) && h < |s.pc| && Along(s.pc[h], call, inside, n) && (n == 0 ==> c == call)
    ensures Along(Step(s, h, c).pc[h], call, inside, n + 1)
  {
    assert Exact(s.pc[h]) && (Holds(s.pc[h]) ==> s.locked) && (s.cpuId == h <==> Marked(s.pc[h]));
  }

  lemma AlongStart(p: Pc, call: Call, inside: bool)
    requires p == if inside then Inside else Outside
    ensures Along(p, call, inside, 0)
  {}

  lemma StepOther(s: State, h: nat, k: nat, c: Call)
    requires h < |s.pc| && k < |s.pc| && h != k
    ensures Step(s, k, c).pc[h] == s.pc[h]
  {}

  /** A call, followed over any interleaving. */
  lemma {:induction false} CallGoes(s: State, schedule: Schedule, h: nat, call: Call, inside: bool)
    requires Inv(s) && h < |s.pc| && Harts(schedule, |s.pc|) && Calls(schedule, h, call)
    requires s.pc[h] == if inside then Inside else Outside
    ensures Inv(Run(s, schedule)) && Along(Run(s, schedule).pc[h], call, inside, Own(schedule, h))
    decreases |schedule|
  {
    hide Step, Inv, Along;
    if schedule == [] {
      AlongStart(s.pc[h], call, inside);
    } else {
      var n := |schedule| - 1;
      var before, k, c := schedule[..n], schedule[n].0, schedule[n].1;
      assert forall i :: 0 <= i < n ==> schedule[..i] == before[..i];
      CallGoes(s, before, h, call, inside);
      StepKeeps(Run(s, before), k, c);
      if k == h {
        AlongStep(Run(s, before), h, call, c, inside, Own(before, h));
      } else {
        StepOther(Run(s, before), h, k, c);
      }
    }
  }

  /** Release, called inside, ends outside after exactly five steps of its own, in every interleaving; the last one
      leaves the lock free and cpu_id at -1. */
  lemma {:induction false} ReleaseGivesBack(s: State, schedule: Schedule, h: nat)
    requires Inv(s) && h < |s.pc| && Harts(schedule, |s.pc|) && s.pc[h] == Inside
    requires Calls(schedule, h, Release) && Own(schedule, h) <= 5
    ensures var t := Run(s, schedule);
            && (t.pc[h] == Outside <==> Own(schedule, h) == 5)
            && (Own(schedule, h) == 5 && schedule[|schedule| - 1].0 == h ==> !t.locked && t.cpuId == -1)
  {
    hide Step, Inv;
    CallGoes(s, schedule, h, Release, true);
    if Own(schedule, h) == 5 && schedule[|schedule| - 1].0 == h {
      var n := |schedule| - 1;
      var before := schedule[..n];
      assert forall i :: 0 <= i < n ==> schedule[..i] == before[..i];
      CallGoes(s, before, h, Release, true);
      UnlockFrees(Run(s, before), h, schedule[n].1);
    }
  }

  lemma NotMarked(s: State, h: nat, k: nat)
    requires Inv(s) && h < |s.pc| && k < |s.pc| && s.pc[h] == Unlock
    ensures s.cpuId != k
  {
    assert Marked(s.pc[k]) ==> Holds(s.pc[k]) && Holds(s.pc[h]);
  }

  lemma UnlockFrees(s: State, h: nat, c: Call)
    requires Inv(s) && h < |s.pc| && s.pc[h] == Unlock
    ensures !Step(s, h, c).locked && Step(s, h, c).cpuId == -1
  {
    if s.cpuId >= 0 { NotMarked(s, h, s.cpuId); }
  }

  /** Acquire, called outside, stands at its swap after at most three steps of its own. A swap that finds the lock
      taken changes nothing. When it finds the lock free, one more step ends inside, with cpu_id the hart's own
      number, whatever others do meanwhile. */
  lemma {:induction false} AcquireTakes(s: State, a: Schedule, c: Call, b: Schedule, h: nat)
    requires Inv(s) && h < |s.pc| && Harts(a, |s.pc|) && Harts(b, |s.pc|) && s.pc[h] == Outside
    requires Calls(a, h, Acquire) && Own(b, h) == 1
    ensures Own(a, h) == 3 ==> Run(s, a).pc[h] == Swap(false) || Holds(Run(s, a).pc[h])
    ensures Run(s, a).pc[h] == Swap(false) && Run(s, a).locked ==> Step(Run(s, a), h, c) == Run(s, a)
    ensures Run(s, a).pc[h] == Swap(false) && !Run(s, a).locked ==>
              var t := Run(Step(Run(s, a), h, c), b); t.pc[h] == Inside && t.locked && t.cpuId == h
  {
    hide Step, Inv;
    CallGoes(s, a, h, Acquire, false);
    if Run(s, a).pc[h] == Swap(false) && Run(s, a).locked { SwapWaits(Run(s, a), h, c); }
    if Run(s, a).pc[h] == Swap(false) && !Run(s, a).locked {
      SwapTakes(Run(s, a), h, c);
      StepKeeps(Run(s, a), h, c);
      SetsCpu(Step(Run(s, a), h, c), b, h);
    }
  }

  lemma SwapTakes(s: State, h: nat, c: Call)
    requires h < |s.pc| && s.pc[h].Swap? && !s.locked
    ensures Step(s, h, c).pc[h] == SetCpu && |Step(s, h, c).pc| == |s.pc|
  {}

  lemma SwapWaits(s: State, h: nat, c: Call)
    requires h < |s.pc| && s.pc[h].Swap? && s.locked
    ensures Step(s, h, c) == s
  {
    assert s.pc[h := s.pc[h]] == s.pc;
  }

  lemma InsideOwns(s: State, h: nat)
    requires Inv(s) && h < |s.pc| && s.pc[h] == Inside
    ensures s.locked && s.cpuId == h
  {
    assert Marked(s.pc[h]) && Holds(s.pc[h]);
  }

  lemma {:induction false} SetsCpu(s: State, b: Schedule, h: nat)
    requires Inv(s) && h < |s.pc| && Harts(b, |s.pc|) && s.pc[h] == SetCpu && Own(b, h) <= 1
    ensures var t := Run(s, b);
            && Inv(t) && (Own(b, h) == 0 ==> t.pc[h] == SetCpu)
            && (Own(b, h) == 1 ==> t.pc[h] == Inside && t.locked && t.cpuId == h)
    decreases |b|
  {
    hide Inv;
    if b != [] {
      var n := |b| - 1;
      var s' := Run(s, b[..n]);
      SetsCpu(s, b[..n], h);
      StepKeeps(s', b[n].0, b[n].1);
      if b[n].0 != h { StepOther(s', h, b[n].0, b[n].1); }
      if Own(b, h) == 1 { InsideOwns(Run(s, b), h); }
    }
  }

  /** The other calls: acquire inside and release outside have panicked after three steps of their own, and
      spinlock_holding has its answer by then, whatever others do. */
  lemma {:induction false} OtherCalls(s: State, schedule: Schedule, h: nat, call: Call, inside: bool)
    requires Inv(s) && h < |s.pc| && Harts(schedule, |s.pc|) && s.pc[h] == if inside then Inside else Outside
    requires Calls(schedule, h, call) && Own(schedule, h) == 3
    ensures var p := Run(s, schedule).pc[h];
            && (p.Panicked? <==> (call.Acquire? && inside) || (call.Release? && !inside))
            && (call.Query? ==> p == Answered(inside, inside) || (!inside && p == Outside))
  {
    hide Step, Inv;
    CallGoes(s, schedule, h, call, inside);
  }

  // ----- the lock as one variable

  datatype Owner = Free | Held(hart: nat)

  ghost function OwnerOf(s: State): Owner {
    if h: nat :| h < |s.pc| && Holds(s.pc[h]) then Held(h) else Free
  }

  lemma OwnerIs(s: State, h: nat)
    requires Inv(s) && h < |s.pc|
    ensures Holds(s.pc[h]) <==> OwnerOf(s) == Held(h)
  {}

  /** Every step leaves the owner alone, or is the swap that takes a free lock, or the store that frees it. */
  lemma StepRefines(s: State, h: nat, call: Call)
    requires Inv(s) && h < |s.pc|
    ensures var t := Step(s, h, call);
            OwnerOf(t) == match s.pc[h]
                          case Swap(_) => if OwnerOf(s).Free? then Held(h) else OwnerOf(s)
                          case Unlock => Free
                          case _ => OwnerOf(s)
    ensures s.pc[h].Unlock? ==> OwnerOf(s) == Held(h)
    ensures OwnerOf(s).Free? <==> !s.locked
  {
    var t := Step(s, h, call);
    StepKeeps(s, h, call);
    assert forall k: nat :: k < |s.pc| && k != h ==> t.pc[k] == s.pc[k];
    OwnerIs(s, h);
    OwnerIs(t, h);
    if OwnerOf(s).Held? { OwnerIs(t, OwnerOf(s).hart); }
    if OwnerOf(t).Held? { OwnerIs(s, OwnerOf(t).hart); }
    assert Exact(s.pc[h]);
  }
}
