/**
 * `getMedian` of webapp/src/sharpness.worker.js (lines 6-9): the list is
 * sorted in ascending numeric order in place and the element at index
 * `floor(length / 2)` is returned. The in-place sort is an insertion sort
 * proved equal to a functional one; any correct numeric sort leaves the same
 * list, since the sorted permutation of a list of numbers is unique.
 */
module Median {

  predicate Ascending(s: seq<int>) {
    forall i, j :: 0 <= i < j < |s| ==> s[i] <= s[j]
  }

  /** Places `v` into the ascending list `s` after every element not greater than it. */
  function InsertInt(s: seq<int>, v: int): seq<int>
    decreases |s|
  {
    if s == [] then [v]
    else if s[|s| - 1] > v then InsertInt(s[..|s| - 1], v) + [s[|s| - 1]]
    else s + [v]
  }

  /** Insertion sort: each element inserted, in turn, into the sorted prefix before it. */
  function SortInts(s: seq<int>): seq<int>
    decreases |s|
  {
    if s == [] then [] else InsertInt(SortInts(s[..|s| - 1]), s[|s| - 1])
  }

  /** `values[Math.floor(values.length / 2)]` of the sorted list. */
  function MedianOf(s: seq<int>): int
    requires s != []
  {
    SortLength(s);
    SortInts(s)[|s| / 2]
  }

  lemma {:induction false} InsertLength(s: seq<int>, v: int)
    ensures |InsertInt(s, v)| == |s| + 1
    decreases |s|
  {
    if s != [] && s[|s| - 1] > v {
      InsertLength(s[..|s| - 1], v);
    }
  }

  lemma {:induction false} SortLength(s: seq<int>)
    ensures |SortInts(s)| == |s|
    decreases |s|
  {
    if s != [] {
      SortLength(s[..|s| - 1]);
      InsertLength(SortInts(s[..|s| - 1]), s[|s| - 1]);
    }
  }

  /** Inserting keeps the elements: the old ones plus `v`. */
  lemma {:induction false} InsertPermutes(s: seq<int>, v: int)
    ensures multiset(InsertInt(s, v)) == multiset(s) + multiset{v}
    decreases |s|
  {
    if s != [] && s[|s| - 1] > v {
      var init := s[..|s| - 1];
      InsertPermutes(init, v);
      assert s == init + [s[|s| - 1]];
    }
  }

  /** Inserting into an ascending list gives an ascending list. */
  lemma {:induction false} InsertAscending(s: seq<int>, v: int)
    requires Ascending(s)
    ensures Ascending(InsertInt(s, v))
    decreases |s|
  {
    if s != [] && s[|s| - 1] > v {
      var init := s[..|s| - 1];
      InsertAscending(init, v);
      InsertPermutes(init, v);
      var r := InsertInt(init, v);
      forall x | x in r ensures x <= s[|s| - 1] {
        assert x in multiset(r);
        if x != v {
          assert x in multiset(init);
          var k :| 0 <= k < |init| && init[k] == x;
          assert s[k] == x;
        }
      }
      var t := r + [s[|s| - 1]];
      forall i, j | 0 <= i < j < |t| ensures t[i] <= t[j] {
        if j == |t| - 1 { assert t[i] in r; }
      }
    }
  }

  /** The insertion sort yields an ascending permutation of its input. */
  lemma {:induction false} SortIsAscendingPermutation(s: seq<int>)
    ensures Ascending(SortInts(s))
    ensures multiset(SortInts(s)) == multiset(s)
    decreases |s|
  {
    if s != [] {
      var init := s[..|s| - 1];
      SortIsAscendingPermutation(init);
      InsertAscending(SortInts(init), s[|s| - 1]);
      InsertPermutes(SortInts(init), s[|s| - 1]);
      assert s == init + [s[|s| - 1]];
    }
  }

  /**
   * The median is one of the values, so it lies between their minimum and
   * maximum; in the sorted list every element up to the middle is at most
   * the median and every element from the middle on is at least it.
   */
  lemma MedianBounds(s: seq<int>)
    requires s != []
    ensures MedianOf(s) in s
    ensures |SortInts(s)| == |s| && multiset(SortInts(s)) == multiset(s)
    ensures forall i :: 0 <= i <= |s| / 2 ==> SortInts(s)[i] <= MedianOf(s)
    ensures forall i :: |s| / 2 <= i < |s| ==> MedianOf(s) <= SortInts(s)[i]
  {
    SortIsAscendingPermutation(s);
    SortLength(s);
    var t := SortInts(s);
    MiddleOfAscending(t, |s| / 2);
    MemberOfPermutation(t, s, |s| / 2);
  }

  /** In an ascending list, the element at `m` bounds the elements before and after it. */
  lemma MiddleOfAscending(t: seq<int>, m: int)
    requires Ascending(t) && 0 <= m < |t|
    ensures forall i :: 0 <= i <= m ==> t[i] <= t[m]
    ensures forall i :: m <= i < |t| ==> t[m] <= t[i]
  {
  }

  /** An element of a list is an element of every permutation of it. */
  lemma MemberOfPermutation(t: seq<int>, s: seq<int>, m: int)
    requires multiset(t) == multiset(s) && 0 <= m < |t|
    ensures t[m] in s
  {
    assert t[m] in multiset(t);
  }

  /**
   * The in-place sort of `getMedian`: insertion sort over `values`, each
   * element shifted left past the larger ones before it. The array ends
   * holding `SortInts` of its old contents.
   */
  method SortInPlace(values: array<int>)
    modifies values
    ensures values[..] == SortInts(old(values[..]))
  {
    ghost var orig := values[..];
    var i := 0;
    while i < values.Length
      invariant 0 <= i <= values.Length
      invariant values[..i] == SortInts(orig[..i])
      invariant values[i..] == orig[i..]
    {
      assert orig[..i + 1][..i] == orig[..i];
      InsertAt(values, i);
      assert orig[..i + 1] == orig[..i] + [orig[i]];
      i := i + 1;
    }
    assert orig[..values.Length] == orig;
  }

  /** Shifting past one larger element moves the boundary of the insertion one place left. */
  lemma InsertShift(pre: seq<int>, key: int, j: int)
    requires 0 < j <= |pre| && pre[j - 1] > key
    ensures InsertInt(pre[..j], key) + pre[j..] == InsertInt(pre[..j - 1], key) + pre[j - 1..]
  {
    assert pre[..j][..j - 1] == pre[..j - 1];
    assert pre[j - 1..] == [pre[j - 1]] + pre[j..];
  }

  /** Where the shifting stops, the key goes right after the prefix. */
  lemma InsertStop(pre: seq<int>, key: int, j: int)
    requires 0 <= j <= |pre| && (j == 0 || pre[j - 1] <= key)
    ensures InsertInt(pre[..j], key) == pre[..j] + [key]
  {
  }

  /** The array contents after the key is placed at `j`, read as a whole. */
  lemma Placed(v: seq<int>, pre: seq<int>, rest: seq<int>, key: int, i: int, j: int)
    requires 0 <= j <= i == |pre| && |v| == i + 1 + |rest|
    requires forall k :: 0 <= k < j ==> v[k] == pre[k]
    requires v[j] == key
    requires forall k :: j < k <= i ==> v[k] == pre[k - 1]
    requires forall k :: i < k < |v| ==> v[k] == rest[k - i - 1]
    ensures v[..i + 1] == pre[..j] + [key] + pre[j..]
    ensures v[i + 1..] == rest
  {
  }

  /**
   * The shift loop: moves each element of the sorted prefix `pre` that is
   * larger than `key` one place right, from the end, and returns the index
   * where `key` belongs. The slot at `i` is free to be overwritten.
   */
  method ShiftLarger(values: array<int>, i: int, ghost pre: seq<int>, ghost rest: seq<int>, key: int) returns (j: int)
    requires 0 <= i < values.Length && |pre| == i && |rest| == values.Length - i - 1
    requires forall k :: 0 <= k < i ==> values[k] == pre[k]
    requires forall k :: i < k < values.Length ==> values[k] == rest[k - i - 1]
    modifies values
    ensures 0 <= j <= i && (j == 0 || pre[j - 1] <= key)
    ensures forall k :: 0 <= k < j ==> values[k] == pre[k]
    ensures forall k :: j < k <= i ==> values[k] == pre[k - 1]
    ensures forall k :: i < k < values.Length ==> values[k] == rest[k - i - 1]
    ensures InsertInt(pre, key) == InsertInt(pre[..j], key) + pre[j..]
  {
    j := i;
    assert pre[..j] == pre && pre[j..] == [];
    while j > 0 && values[j - 1] > key
      invariant 0 <= j <= i
      invariant forall k :: 0 <= k < j ==> values[k] == pre[k]
      invariant forall k :: j < k <= i ==> values[k] == pre[k - 1]
      invariant forall k :: i < k < values.Length ==> values[k] == rest[k - i - 1]
      invariant InsertInt(pre, key) == InsertInt(pre[..j], key) + pre[j..]
    {
      values[j] := values[j - 1];
      InsertShift(pre, key, j);
      j := j - 1;
    }
  }

  /** Inserts `values[i]` into the sorted prefix `values[..i]`, leaving the rest alone. */
  method InsertAt(values: array<int>, i: int)
    requires 0 <= i < values.Length
    modifies values
    ensures values[..i + 1] == InsertInt(old(values[..i]), old(values[i]))
    ensures values[i + 1..] == old(values[i + 1..])
  {
    ghost var pre := values[..i];
    ghost var rest := values[i + 1..];
    var key := values[i];
    var j := ShiftLarger(values, i, pre, rest, key);
    values[j] := key;
    InsertStop(pre, key, j);
    Placed(values[..], pre, rest, key, i, j);
  }

  /** `getMedian`: sorts `values` in place and returns its middle element. */
  method GetMedian(values: array<int>) returns (m: int)
    requires values.Length > 0
    modifies values
    ensures m == MedianOf(old(values[..]))
    ensures values[..] == SortInts(old(values[..]))
  {
    SortInPlace(values);
    m := values[values.Length / 2];
  }
}
