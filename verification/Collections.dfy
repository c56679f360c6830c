/** Sets and sequences of numbers, and optional values, as several modules use them. */
module Collections {
  datatype Option<T> = None | Some(value: T)

  function Min(a: nat, b: nat): (m: nat)
    ensures m <= a && m <= b && (m == a || m == b)
  {
    if a < b then a else b
  }

  // ----- sequences

  /** dat with buf stored at offset, where it fits. */
  function Overlay<T>(dat: seq<T>, offset: nat, buf: seq<T>): (r: seq<T>)
    ensures |r| == |dat|
  {
    if offset + |buf| <= |dat| then dat[..offset] + buf + dat[offset + |buf|..] else dat
  }

  /** The elements of buf from offset on, and elsewhere those that were there. */
  lemma OverlayAt<T>(dat: seq<T>, offset: nat, buf: seq<T>, i: nat)
    requires offset + |buf| <= |dat| && i < |dat|
    ensures Overlay(dat, offset, buf)[i] == if offset <= i < offset + |buf| then buf[i - offset] else dat[i]
  {}

  function RemoveAt(xs: seq<nat>, i: nat): seq<nat>
    requires i < |xs|
  {
    xs[..i] + xs[i + 1..]
  }

  function InsertAt(xs: seq<nat>, i: nat, x: nat): seq<nat>
    requires i <= |xs|
  {
    xs[..i] + [x] + xs[i..]
  }

  ghost predicate Ascending(xs: seq<nat>) {
    forall i, j :: 0 <= i < j < |xs| ==> xs[i] < xs[j]
  }

  ghost predicate Distinct(xs: seq<nat>) {
    forall i, j :: 0 <= i < j < |xs| ==> xs[i] != xs[j]
  }

  function Elements(xs: seq<nat>): set<nat> {
    set x | x in xs
  }

  lemma {:induction false} DistinctCount(xs: seq<nat>)
    requires Distinct(xs)
    ensures |Elements(xs)| == |xs|
    decreases |xs|
  {
    if xs != [] {
      DistinctCount(xs[1..]);
      assert xs == [xs[0]] + xs[1..];
      assert Elements(xs) == Elements(xs[1..]) + {xs[0]};
    }
  }

  // ----- finite sets

  /** The numbers below n. */
  function Below(n: nat): (r: set<nat>)
    ensures forall x: nat :: x in r <==> x < n
    ensures |r| == n
  {
    if n == 0 then {} else Below(n - 1) + {n - 1}
  }

  lemma {:induction false} SubsetSize(a: set<nat>, b: set<nat>)
    requires a <= b
    ensures |a| <= |b|
    decreases |a|
  {
    if a != {} {
      var x :| x in a;
      SubsetSize(a - {x}, b - {x});
    }
  }
}
