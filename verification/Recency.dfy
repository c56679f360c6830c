/** Least-recently-used order over a trace of accesses, independent of any buffer. */
module Recency {
  import opened Collections

  /** xs without its first x. */
  function Without(xs: seq<nat>, x: nat): seq<nat> {
    if xs == [] then [] else if xs[0] == x then xs[1..] else [xs[0]] + Without(xs[1..], x)
  }

  lemma {:induction false} WithoutFacts(xs: seq<nat>, x: nat)
    requires Distinct(xs)
    ensures Distinct(Without(xs, x))
    ensures forall y :: y in Without(xs, x) <==> y in xs && y != x
    ensures |Without(xs, x)| == if x in xs then |xs| - 1 else |xs|
    ensures x !in xs ==> Without(xs, x) == xs
    decreases |xs|
  {
    if xs != [] {
      assert xs == [xs[0]] + xs[1..];
      if xs[0] != x {
        WithoutFacts(xs[1..], x);
        assert xs[0] !in xs[1..];
      }
    }
  }

  lemma {:induction false} WithoutConcat(xs: seq<nat>, ys: seq<nat>, x: nat)
    ensures Without(xs + ys, x) == if x in xs then Without(xs, x) + ys else xs + Without(ys, x)
    decreases |xs|
  {
    if xs == [] {
      assert xs + ys == ys;
    } else {
      var h, t := xs[0], xs[1..];
      assert (xs + ys)[1..] == t + ys;
      assert xs == [h] + t;
      if h != x {
        WithoutConcat(t, ys, x);
        Associate(h, Without(t, x), ys);
        Associate(h, t, Without(ys, x));
      }
    }
  }

  lemma Associate(h: nat, a: seq<nat>, b: seq<nat>)
    ensures [h] + (a + b) == ([h] + a) + b
  {}

  /** The sectors accessed in a trace, each once, by last access, oldest first. */
  function ByLastAccess(trace: seq<nat>): seq<nat>
    decreases |trace|
  {
    if trace == [] then []
    else Without(ByLastAccess(trace[..|trace| - 1]), trace[|trace| - 1]) + [trace[|trace| - 1]]
  }

  function LastN(xs: seq<nat>, n: nat): seq<nat> {
    if |xs| <= n then xs else xs[|xs| - n..]
  }

  lemma {:induction false} ByLastAccessFacts(trace: seq<nat>)
    ensures Distinct(ByLastAccess(trace))
    ensures forall s :: s in ByLastAccess(trace) <==> s in trace
    decreases |trace|
  {
    if trace != [] {
      var before, s := trace[..|trace| - 1], trace[|trace| - 1];
      assert trace == before + [s];
      ByLastAccessFacts(before);
      WithoutFacts(ByLastAccess(before), s);
    }
  }

  lemma {:induction false} AccessOnce(trace: seq<nat>, s: nat)
    ensures ByLastAccess(trace + [s]) == Without(ByLastAccess(trace), s) + [s]
  {
    assert (trace + [s])[..|trace|] == trace;
  }

  lemma LastOf(pre: seq<nat>, m: seq<nat>, n: nat)
    requires |m| == n || (pre == [] && |m| <= n)
    ensures LastN(pre + m, n) == m
  {
    if pre == [] { assert pre + m == m; }
  }

  lemma {:induction false} LastHit(pre: seq<nat>, l: seq<nat>, n: nat, s: nat)
    requires s in l && s !in pre && Distinct(l) && (|l| == n || (pre == [] && |l| <= n))
    ensures LastN(Without(pre + l, s) + [s], n) == Without(l, s) + [s]
  {
    WithoutConcat(pre, l, s);
    WithoutFacts(l, s);
    assert Without(pre + l, s) + [s] == pre + (Without(l, s) + [s]);
    LastOf(pre, Without(l, s) + [s], n);
  }

  lemma {:induction false} LastMiss(pre: seq<nat>, l: seq<nat>, n: nat, s: nat)
    requires n > 0 && s !in l && Distinct(l) && Distinct(pre) && (|l| == n || (pre == [] && |l| <= n))
    ensures LastN(Without(pre + l, s) + [s], n) == if |l| < n then l + [s] else l[1..] + [s]
  {
    WithoutConcat(pre, l, s);
    WithoutFacts(l, s);
    WithoutFacts(pre, s);
    AppendLast(Without(pre, s), l, n, s);
  }

  lemma AppendLast(w: seq<nat>, l: seq<nat>, n: nat, s: nat)
    requires n > 0 && (|l| == n || (w == [] && |l| <= n))
    ensures LastN(w + l + [s], n) == if |l| < n then l + [s] else l[1..] + [s]
  {
    if |l| < n {
      assert w + l + [s] == l + [s];
    } else {
      assert l == [l[0]] + l[1..];
      assert w + l + [s] == (w + [l[0]]) + (l[1..] + [s]);
      LastOf(w + [l[0]], l[1..] + [s], n);
    }
  }

  /** One access keeps "the last n": a hit moves the sector to the end, a miss appends it and drops the
      oldest when there are already n. */
  lemma {:induction false} AccessKeepsLastN(trace: seq<nat>, n: nat, s: nat)
    requires n > 0
    ensures var l := LastN(ByLastAccess(trace), n);
            LastN(ByLastAccess(trace + [s]), n)
            == if s in l then Without(l, s) + [s] else if |l| < n then l + [s] else l[1..] + [s]
  {
    hide ByLastAccess, Without;
    var r := ByLastAccess(trace);
    var l := LastN(r, n);
    var pre := r[..|r| - |l|];
    assert r == pre + l;
    ByLastAccessFacts(trace);
    AccessOnce(trace, s);
    if s in l {
      assert s !in pre;
      LastHit(pre, l, n, s);
    } else {
      LastMiss(pre, l, n, s);
    }
  }

  // ----- when a sector is still among the last n

  /** What was accessed after the last access of s. */
  function AfterLast(trace: seq<nat>, s: nat): seq<nat>
    decreases |trace|
  {
    if trace == [] || trace[|trace| - 1] == s then []
    else AfterLast(trace[..|trace| - 1], s) + [trace[|trace| - 1]]
  }

  /** Entry p of r is s, and the entries after it are exactly `after`. */
  ghost predicate SplitAt(r: seq<nat>, p: nat, s: nat, after: set<nat>) {
    p < |r| && r[p] == s && Elements(r[p + 1..]) == after
  }

  lemma SplitMove(r: seq<nat>, q: nat, s: nat, t: nat, after: set<nat>) returns (p: nat)
    requires Distinct(r) && SplitAt(r, q, s, after) && t != s
    ensures SplitAt(Without(r, t) + [t], p, s, after + {t})
  {
    var lo, hi := r[..q], r[q + 1..];
    assert r == lo + ([s] + hi);
    WithoutConcat(lo, [s] + hi, t);
    if t in lo {
      p := SplitFrom(Without(lo, t), s, hi, t);
    } else {
      WithoutConcat([s], hi, t);
      WithoutFacts(hi, t);
      p := SplitFrom(lo, s, Without(hi, t), t);
    }
  }

  lemma SplitFrom(lo: seq<nat>, s: nat, hi: seq<nat>, t: nat) returns (p: nat)
    ensures SplitAt(lo + ([s] + hi) + [t], p, s, Elements(hi) + {t})
  {
    p := |lo|;
    assert (lo + ([s] + hi) + [t])[p + 1..] == hi + [t];
  }

  /** After s, the order lists exactly the sectors accessed since s was. */
  lemma {:induction false} OrderAfter(trace: seq<nat>, s: nat) returns (p: nat)
    requires s in trace
    ensures SplitAt(ByLastAccess(trace), p, s, Elements(AfterLast(trace, s)))
    decreases |trace|
  {
    var before, t := trace[..|trace| - 1], trace[|trace| - 1];
    assert trace == before + [t];
    var r := ByLastAccess(before);
    if t == s {
      p := |Without(r, t)|;
      assert ByLastAccess(trace)[p + 1..] == [];
    } else {
      ByLastAccessFacts(before);
      var q := OrderAfter(before, s);
      p := SplitMove(r, q, s, t, Elements(AfterLast(before, s)));
      assert Elements(AfterLast(before, s) + [t]) == Elements(AfterLast(before, s)) + {t};
    }
  }

  lemma AmongLast(r: seq<nat>, n: nat, p: nat)
    requires Distinct(r) && p < |r|
    ensures r[p] in LastN(r, n) <==> |r| - p <= n
  {
    var l := LastN(r, n);
    if |r| - p <= n {
      assert l[p - (|r| - |l|)] == r[p];
    } else {
      assert forall i :: 0 <= i < |l| ==> l[i] == r[|r| - n + i];
    }
  }

  /** Residency: a sector is among the last n exactly when it was accessed and fewer than n distinct
      sectors were accessed since. */
  lemma {:induction false} ResidentIff(trace: seq<nat>, n: nat, s: nat)
    requires n > 0
    ensures s in LastN(ByLastAccess(trace), n) <==> s in trace && |Elements(AfterLast(trace, s))| < n
  {
    var r := ByLastAccess(trace);
    ByLastAccessFacts(trace);
    if s in trace {
      var p := OrderAfter(trace, s);
      DistinctCount(r[p + 1..]);
      AmongLast(r, n, p);
    }
  }
}
