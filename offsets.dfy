/**
 * Session offsets: points of the timeline, ordered with a sentinel below every
 * time (the root-level state) and one above every time (open-ended nodes).
 * Offsets are only compared and subtracted, so finite ones are reals.
 */
module Offsets {

  datatype Offset = NegInf | Fin(t: real) | PosInf

  /** Strict order: NegInf < Fin(x) < Fin(y) < PosInf for x < y. */
  predicate Lt(a: Offset, b: Offset) {
    match a
    case NegInf => !b.NegInf?
    case Fin(x) => b.PosInf? || (b.Fin? && x < b.t)
    case PosInf => false
  }

  predicate Le(a: Offset, b: Offset) {
    a == b || Lt(a, b)
  }

  /** `at` accepts exactly the offsets that are not below zero. */
  predicate NonNegative(o: Offset) {
    Le(Fin(0.0), o)
  }

  /** Nondecreasing, as a priority queue keeps its entries. */
  ghost predicate Sorted(s: seq<Offset>) {
    forall i, j :: 0 <= i < j < |s| ==> Le(s[i], s[j])
  }

  /** Strictly increasing, as the session keeps its offset list. */
  ghost predicate StrictlySorted(s: seq<Offset>) {
    forall i, j :: 0 <= i < j < |s| ==> Lt(s[i], s[j])
  }

  /** Python's `bisect.bisect_left`: the number of entries strictly below `x`. */
  function BisectLeft(s: seq<Offset>, x: Offset): (i: nat)
    requires Sorted(s)
    ensures i <= |s|
    ensures forall j :: 0 <= j < i ==> Lt(s[j], x)
    ensures forall j :: i <= j < |s| ==> Le(x, s[j])
  {
    if s == [] || !Lt(s[0], x) then 0 else 1 + BisectLeft(s[1..], x)
  }

  /** Python's `bisect.bisect` (bisect_right): the number of entries not above `x`. */
  function BisectRight(s: seq<Offset>, x: Offset): (i: nat)
    requires Sorted(s)
    ensures i <= |s|
    ensures forall j :: 0 <= j < i ==> Le(s[j], x)
    ensures forall j :: i <= j < |s| ==> Lt(x, s[j])
  {
    if s == [] || !Le(s[0], x) then 0 else 1 + BisectRight(s[1..], x)
  }

  lemma StrictlySortedIsSorted(s: seq<Offset>)
    requires StrictlySorted(s)
    ensures Sorted(s)
  {
  }

  /** An offset of the list strictly above `a` is counted by BisectRight(b) but not by BisectRight(a). */
  lemma BisectRightGrows(s: seq<Offset>, a: Offset, b: Offset)
    requires Sorted(s) && b in s && Lt(a, b)
    ensures BisectRight(s, a) < BisectRight(s, b)
  {
    var k :| 0 <= k < |s| && s[k] == b;
    assert BisectRight(s, a) <= k;
  }

  lemma BisectRightMonotone(s: seq<Offset>, a: Offset, b: Offset)
    requires Sorted(s) && Le(a, b)
    ensures BisectRight(s, a) <= BisectRight(s, b)
  {
  }

  /**
   * `PriorityQueue.put`: the entry goes after every entry not above it, so the
   * queue stays sorted and `get` (the head) is always a least entry.
   */
  function Push(q: seq<Offset>, x: Offset): (r: seq<Offset>)
    requires Sorted(q)
    ensures Sorted(r)
    ensures multiset(r) == multiset(q) + multiset{x}
  {
    var k := BisectRight(q, x);
    assert q == q[..k] + q[k..];
    InsertSorted(q, k, x);
    q[..k] + [x] + q[k..]
  }

  /** Inserting at the bisection point keeps a sorted sequence sorted. */
  lemma InsertSorted(q: seq<Offset>, k: nat, x: Offset)
    requires Sorted(q) && k <= |q|
    requires forall j :: 0 <= j < k ==> Le(q[j], x)
    requires forall j :: k <= j < |q| ==> Lt(x, q[j])
    ensures Sorted(q[..k] + [x] + q[k..])
  {
    var r := q[..k] + [x] + q[k..];
    assert forall i :: 0 <= i < |r| ==> r[i] == if i < k then q[i] else if i == k then x else q[i - 1];
    forall i, j | 0 <= i < j < |r| ensures Le(r[i], r[j]) {
      if j < k || i > k {
      } else if i == k {
        assert Lt(x, q[j - 1]);
      } else if j == k {
        assert Le(q[i], x);
      } else {
        assert Le(q[i], q[j - 1]);
      }
    }
  }

  /** Inserting an offset the list lacks at its sorted place, as `list.insert` after its predecessor does. */
  function Insert(s: seq<Offset>, x: Offset): (r: seq<Offset>)
    requires StrictlySorted(s) && x !in s
    ensures StrictlySorted(r)
    ensures forall y :: y in r <==> y in s || y == x
    ensures |r| == |s| + 1
  {
    StrictlySortedIsSorted(s);
    var k := BisectLeft(s, x);
    var r := s[..k] + [x] + s[k..];
    assert forall i :: 0 <= i < |r| ==> r[i] == if i < k then s[i] else if i == k then x else s[i - 1];
    forall i, j | 0 <= i < j < |r| ensures Lt(r[i], r[j]) {
      if j < k || i > k {
      } else if i == k {
        assert s[j - 1] != x;
      } else if j == k {
      } else {
        assert Lt(s[i], s[j - 1]);
      }
    }
    assert s == s[..k] + s[k..];
    r
  }
}
