/**
 * The recursive queue of the analysis scheduler: segments of unexplored frames,
 * the scheduler's ordering of them and their subdivision at the midpoint
 * (webapp/src/App.jsx, the recursive branch of the scheduling loop).
 */
module Segments {

  /** An unexplored frame range `[startFrame, endFrame]` found at subdivision `depth`. */
  datatype Segment = Segment(startFrame: int, endFrame: int, depth: int)

  /** `endFrame - startFrame`, the second sort key. */
  function Span(s: Segment): int { s.endFrame - s.startFrame }

  /** The number of frames a segment covers (0 for an inverted one). */
  function Size(s: Segment): nat { if s.startFrame <= s.endFrame then s.endFrame - s.startFrame + 1 else 0 }

  /** The comparator `a.depth - b.depth || span(a) - span(b)` is negative. */
  predicate Before(a: Segment, b: Segment) {
    a.depth < b.depth || (a.depth == b.depth && Span(a) < Span(b))
  }

  /** The comparator returns 0: neither segment goes before the other. */
  predicate SameKey(a: Segment, b: Segment) {
    a.depth == b.depth && Span(a) == Span(b)
  }

  /** Ordered by the comparator: no later element goes strictly before an earlier one. */
  ghost predicate Sorted(q: seq<Segment>) {
    forall i, j :: 0 <= i < j < |q| ==> !Before(q[j], q[i])
  }

  /** Puts `x` in front of the first element that does not go strictly before it. */
  function Insert(x: Segment, t: seq<Segment>): seq<Segment> {
    if t == [] || !Before(t[0], x) then [x] + t else [t[0]] + Insert(x, t[1..])
  }

  /**
   * The in-place `recursiveQueue.sort(...)`: a stable sort by (depth, span). An
   * element is inserted ahead of the equal-keyed elements that followed it, so
   * equal keys keep their original order, as the language's stable sort does.
   */
  function Sort(q: seq<Segment>): seq<Segment> {
    if q == [] then [] else Insert(q[0], Sort(q[1..]))
  }

  /** The index of the first segment of least (depth, span). */
  function FirstMin(q: seq<Segment>): (k: nat)
    requires q != []
    ensures k < |q|
    ensures forall j :: 0 <= j < |q| ==> !Before(q[j], q[k])
    ensures forall j :: 0 <= j < k ==> Before(q[k], q[j])
  {
    if |q| == 1 then 0
    else
      var k := FirstMin(q[1..]);
      if Before(q[1 + k], q[0]) then 1 + k else 0
  }

  lemma {:induction false} InsertPermutes(x: Segment, t: seq<Segment>)
    ensures multiset(Insert(x, t)) == multiset{x} + multiset(t)
  {
    if t != [] && Before(t[0], x) {
      InsertPermutes(x, t[1..]);
      assert t == [t[0]] + t[1..];
    }
  }

  /** A segment that no element of `r` goes before can lead an ordered `r`. */
  lemma ConsSorted(h: Segment, r: seq<Segment>)
    requires Sorted(r)
    requires forall j :: 0 <= j < |r| ==> !Before(r[j], h)
    ensures Sorted([h] + r)
  {
    var u := [h] + r;
    forall i, j | 0 <= i < j < |u| ensures !Before(u[j], u[i]) {
      if i == 0 { assert u[j] == r[j - 1]; } else { assert u[i] == r[i - 1] && u[j] == r[j - 1]; }
    }
  }

  /** Inserting adds no element that goes before `h` when neither `x` nor `t` holds one. */
  lemma InsertNotBefore(x: Segment, t: seq<Segment>, h: Segment)
    requires !Before(x, h)
    requires forall k :: 0 <= k < |t| ==> !Before(t[k], h)
    ensures forall j :: 0 <= j < |Insert(x, t)| ==> !Before(Insert(x, t)[j], h)
  {
    InsertPermutes(x, t);
    var r := Insert(x, t);
    forall j | 0 <= j < |r| ensures !Before(r[j], h) {
      assert r[j] in multiset(r);
      if r[j] != x {
        assert r[j] in multiset(t);
        var k :| 0 <= k < |t| && t[k] == r[j];
      }
    }
  }

  lemma {:induction false} InsertOrdered(x: Segment, t: seq<Segment>)
    requires Sorted(t)
    ensures Sorted(Insert(x, t))
  {
    if t == [] || !Before(t[0], x) {
      assert forall j :: 0 <= j < |t| ==> !Before(t[j], x) by {
        forall j | 0 <= j < |t| ensures !Before(t[j], x) {
          assert j == 0 || !Before(t[j], t[0]);
        }
      }
      ConsSorted(x, t);
    } else {
      var t' := t[1..];
      assert Sorted(t');
      InsertOrdered(x, t');
      assert forall k :: 0 <= k < |t'| ==> !Before(t'[k], t[0]) by {
        forall k | 0 <= k < |t'| ensures !Before(t'[k], t[0]) { assert t'[k] == t[k + 1]; }
      }
      InsertNotBefore(x, t', t[0]);
      ConsSorted(t[0], Insert(x, t'));
    }
  }

  /** The sort yields an ordered permutation of the queue. */
  lemma {:induction false} SortIsOrderedPermutation(q: seq<Segment>)
    ensures Sorted(Sort(q))
    ensures multiset(Sort(q)) == multiset(q)
    ensures |Sort(q)| == |q|
  {
    if q != [] {
      var t := Sort(q[1..]);
      assert Sort(q) == Insert(q[0], t);
      SortIsOrderedPermutation(q[1..]);
      InsertPermutes(q[0], t);
      InsertOrdered(q[0], t);
      assert q == [q[0]] + q[1..];
      assert |multiset(Sort(q))| == |Sort(q)|;
    }
  }

  /** The segment `shift()`ed after sorting is the first one of least (depth, span). */
  lemma {:induction false} SortHeadIsFirstMin(q: seq<Segment>)
    requires q != []
    ensures Sort(q) != [] && Sort(q)[0] == q[FirstMin(q)]
  {
    if |q| == 1 {
    } else {
      SortHeadIsFirstMin(q[1..]);
    }
  }

  /** The subsequence of `q` whose elements have the sort key of `k`. */
  function WithKeyOf(q: seq<Segment>, k: Segment): (r: seq<Segment>)
    ensures |r| <= |q|
  {
    if q == [] then [] else (if SameKey(q[0], k) then [q[0]] else []) + WithKeyOf(q[1..], k)
  }

  lemma {:induction false} InsertKeepsKeyOrder(x: Segment, t: seq<Segment>, k: Segment)
    ensures WithKeyOf(Insert(x, t), k) == (if SameKey(x, k) then [x] else []) + WithKeyOf(t, k)
  {
    if t == [] || !Before(t[0], x) {
      assert ([x] + t)[1..] == t;
    } else {
      InsertKeepsKeyOrder(x, t[1..], k);
      assert ([t[0]] + Insert(x, t[1..]))[1..] == Insert(x, t[1..]);
    }
  }

  /** Stability: for every key, the segments having it keep their relative order. */
  lemma {:induction false} SortIsStable(q: seq<Segment>, k: Segment)
    ensures WithKeyOf(Sort(q), k) == WithKeyOf(q, k)
  {
    if q != [] {
      SortIsStable(q[1..], k);
      InsertKeepsKeyOrder(q[0], Sort(q[1..]), k);
    }
  }

  // ---------------------------------------------------------------------------
  // Subdivision

  /** `Math.floor((startFrame + endFrame) / 2)`; `/` by a positive constant floors. */
  function Mid(s: Segment): int { (s.startFrame + s.endFrame) / 2 }

  /** The segment contains frame `f`. */
  predicate Covers(s: Segment, f: int) { s.startFrame <= f <= s.endFrame }

  /** How many queued segments contain frame `f`. */
  function Cover(q: seq<Segment>, f: int): nat {
    if q == [] then 0 else (if Covers(q[0], f) then 1 else 0) + Cover(q[1..], f)
  }

  /** The total number of frames in the queued segments. */
  function Sizes(q: seq<Segment>): nat {
    if q == [] then 0 else Size(q[0]) + Sizes(q[1..])
  }

  lemma {:induction false} CoverAppend(a: seq<Segment>, b: seq<Segment>, f: int)
    ensures Cover(a + b, f) == Cover(a, f) + Cover(b, f)
    ensures Sizes(a + b) == Sizes(a) + Sizes(b)
  {
    if a == [] {
      assert a + b == b;
    } else {
      CoverAppend(a[1..], b, f);
      assert (a + b)[1..] == a[1..] + b;
    }
  }

  lemma {:induction false} CoverInsert(x: Segment, t: seq<Segment>, f: int)
    ensures Cover(Insert(x, t), f) == (if Covers(x, f) then 1 else 0) + Cover(t, f)
    ensures Sizes(Insert(x, t)) == Size(x) + Sizes(t)
  {
    if t == [] || !Before(t[0], x) {
      assert ([x] + t)[1..] == t;
    } else {
      CoverInsert(x, t[1..], f);
      assert ([t[0]] + Insert(x, t[1..]))[1..] == Insert(x, t[1..]);
    }
  }

  /** Sorting the queue changes neither any frame's coverage nor the total size. */
  lemma {:induction false} CoverSort(q: seq<Segment>, f: int)
    ensures Cover(Sort(q), f) == Cover(q, f)
    ensures Sizes(Sort(q)) == Sizes(q)
  {
    if q != [] {
      CoverSort(q[1..], f);
      CoverInsert(q[0], Sort(q[1..]), f);
    }
  }

  /**
   * The halves pushed back after `mid` is taken: `[start, mid-1]` and
   * `[mid+1, end]` one level deeper, each only when non-empty.
   */
  function Children(s: Segment): (r: seq<Segment>)
    requires s.startFrame <= s.endFrame
    ensures |r| <= 2
    ensures forall c :: c in r ==>
      && s.startFrame <= c.startFrame <= c.endFrame <= s.endFrame
      && c.depth == s.depth + 1
      && !(c.startFrame <= Mid(s) <= c.endFrame)
    ensures |r| == 2 ==> r[0].endFrame < r[1].startFrame
  {
    var m := Mid(s);
    (if m - 1 >= s.startFrame then [Segment(s.startFrame, m - 1, s.depth + 1)] else []) +
    (if m + 1 <= s.endFrame then [Segment(m + 1, s.endFrame, s.depth + 1)] else [])
  }

  /**
   * The midpoint and the two halves partition the parent: every frame of the
   * parent other than the midpoint lies in exactly one half, and the halves
   * hold one frame fewer than the parent.
   */
  lemma ChildrenPartition(s: Segment, f: int)
    requires s.startFrame <= s.endFrame
    ensures Cover(Children(s), f) + (if f == Mid(s) then 1 else 0) == (if Covers(s, f) then 1 else 0)
    ensures Sizes(Children(s)) == Size(s) - 1
  {
    var m := Mid(s);
    var left := if m - 1 >= s.startFrame then [Segment(s.startFrame, m - 1, s.depth + 1)] else [];
    var right := if m + 1 <= s.endFrame then [Segment(m + 1, s.endFrame, s.depth + 1)] else [];
    assert Children(s) == left + right;
    CoverAppend(left, right, f);
  }

  /** Every queued segment lies inside `[1, n]` and is non-empty. */
  predicate AllWithin(q: seq<Segment>, n: int) {
    forall s :: s in q ==> 1 <= s.startFrame <= s.endFrame <= n
  }
}
