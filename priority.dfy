/**
 * The frames `triggerPriorityAnalysis` queues around a focus centre
 * (webapp/src/App.jsx, lines 321-350): the centre, then its neighbours at
 * distance 1, 2, ... up to the radius, lower one first, keeping only frames
 * in range that still need analysis; and the merge of that list in front of
 * the old priority queue.
 */
module Priority {
  import opened Common
  import opened ScoreStore

  /** The frames tested at distance `i` of centre `c`, in the order the loop pushes them. */
  function Ring(c: int, i: int, total: int, scores: map<int, FrameScore>): seq<int> {
    if i == 0 then
      (if NeedsAnalysis(scores, c) then [c] else [])
    else
      (if c - i >= 1 && NeedsAnalysis(scores, c - i) then [c - i] else []) +
      (if c + i <= total && NeedsAnalysis(scores, c + i) then [c + i] else [])
  }

  /** `newPT` after the loop iterations `i = 0 .. r - 1`. */
  function Candidates(c: int, r: int, total: int, scores: map<int, FrameScore>): seq<int>
    decreases r
  {
    if r <= 0 then [] else Candidates(c, r - 1, total, scores) + Ring(c, r - 1, total, scores)
  }

  /** The distance from the centre, the first ordering key of the candidate list. */
  function Dist(c: int, f: int): nat { if f <= c then c - f else f - c }

  /** The frames the call asks for: within the radius, in range on their own side, and not scored without error. */
  predicate Wanted(c: int, r: int, total: int, scores: map<int, FrameScore>, f: int) {
    && Dist(c, f) < r
    && (f < c ==> f >= 1)
    && (f > c ==> f <= total)
    && NeedsAnalysis(scores, f)
  }

  predicate NoDuplicates(s: seq<int>) {
    forall i, j :: 0 <= i < j < |s| ==> s[i] != s[j]
  }

  /** Every frame of `s` is nearer to `c` than `d`. */
  predicate Closer(c: int, s: seq<int>, d: int) {
    forall x :: x in s ==> Dist(c, x) < d
  }

  /** Every frame of `s` is at distance `d` from `c`. */
  predicate AtDistance(c: int, s: seq<int>, d: int) {
    forall y :: y in s ==> Dist(c, y) == d
  }

  /** Nearer frames first; at equal distance, the lower frame first. */
  predicate NearestFirst(c: int, s: seq<int>) {
    forall i, j :: 0 <= i < j < |s| ==>
      Dist(c, s[i]) < Dist(c, s[j]) || (Dist(c, s[i]) == Dist(c, s[j]) && s[i] < s[j])
  }

  lemma RingFacts(c: int, i: int, total: int, scores: map<int, FrameScore>)
    requires i >= 0
    ensures forall f :: f in Ring(c, i, total, scores) <==>
      (Dist(c, f) == i && (f < c ==> f >= 1) && (f > c ==> f <= total) && NeedsAnalysis(scores, f))
    ensures NearestFirst(c, Ring(c, i, total, scores))
  {
  }

  /** The candidate list holds exactly the wanted frames, in both directions. */
  lemma {:induction false} CandidatesAreWanted(c: int, r: int, total: int, scores: map<int, FrameScore>)
    ensures forall f :: f in Candidates(c, r, total, scores) <==> Wanted(c, r, total, scores, f)
    decreases r
  {
    if r > 0 {
      var a := Candidates(c, r - 1, total, scores);
      var b := Ring(c, r - 1, total, scores);
      CandidatesAreWanted(c, r - 1, total, scores);
      RingFacts(c, r - 1, total, scores);
      forall f ensures f in a + b <==> Wanted(c, r, total, scores, f) {
        assert f in a + b <==> f in a || f in b;
      }
    }
  }

  /**
   * The candidate list is ordered nearest first, the lower frame first at
   * equal distance, and therefore has no duplicates.
   */
  lemma {:induction false} CandidatesNearestFirst(c: int, r: int, total: int, scores: map<int, FrameScore>)
    ensures NearestFirst(c, Candidates(c, r, total, scores))
    ensures NoDuplicates(Candidates(c, r, total, scores))
    decreases r
  {
    CandidatesOrdered(c, r, total, scores);
    var s := Candidates(c, r, total, scores);
    forall i, j | 0 <= i < j < |s| ensures s[i] != s[j] {
      assert Dist(c, s[i]) < Dist(c, s[j]) || (Dist(c, s[i]) == Dist(c, s[j]) && s[i] < s[j]);
    }
  }

  /** The induction behind the ordering half of `CandidatesNearestFirst`, one ring at a time. */
  lemma {:induction false} CandidatesOrdered(c: int, r: int, total: int, scores: map<int, FrameScore>)
    ensures NearestFirst(c, Candidates(c, r, total, scores))
    decreases r
  {
    if r > 0 {
      CandidatesOrdered(c, r - 1, total, scores);
      OrderedStep(c, r - 1, total, scores);
    }
  }

  /** Appending the next ring to an ordered candidate list keeps it ordered. */
  lemma OrderedStep(c: int, i: int, total: int, scores: map<int, FrameScore>)
    requires i >= 0 && NearestFirst(c, Candidates(c, i, total, scores))
    ensures NearestFirst(c, Candidates(c, i + 1, total, scores))
  {
    CandidatesCloser(c, i, total, scores);
    RingAtDistance(c, i, total, scores);
    AppendNearestFirst(c, Candidates(c, i, total, scores), Ring(c, i, total, scores), i);
  }

  /** Every candidate lies nearer than the number of rings scanned. */
  lemma CandidatesCloser(c: int, r: int, total: int, scores: map<int, FrameScore>)
    ensures Closer(c, Candidates(c, r, total, scores), r)
  {
    CandidatesAreWanted(c, r, total, scores);
  }

  /** A ring holds frames of its own distance only, lower side first. */
  lemma RingAtDistance(c: int, i: int, total: int, scores: map<int, FrameScore>)
    requires i >= 0
    ensures AtDistance(c, Ring(c, i, total, scores), i)
    ensures NearestFirst(c, Ring(c, i, total, scores))
  {
    RingFacts(c, i, total, scores);
  }

  /** Appending frames of one larger distance keeps the nearest-first order. */
  lemma AppendNearestFirst(c: int, a: seq<int>, b: seq<int>, d: int)
    requires NearestFirst(c, a) && NearestFirst(c, b)
    requires Closer(c, a, d) && AtDistance(c, b, d)
    ensures NearestFirst(c, a + b)
  {
    var s := a + b;
    forall i, j | 0 <= i < j < |s|
      ensures Dist(c, s[i]) < Dist(c, s[j]) || (Dist(c, s[i]) == Dist(c, s[j]) && s[i] < s[j])
    {
      if j < |a| {
        assert s[i] == a[i] && s[j] == a[j];
      } else if i >= |a| {
        assert s[i] == b[i - |a|] && s[j] == b[j - |a|];
      } else {
        assert s[i] == a[i] && a[i] in a && s[j] == b[j - |a|] && b[j - |a|] in b;
      }
    }
  }

  /**
   * The loop of `triggerPriorityAnalysis` that fills `newPT`: for
   * `i = 0 .. radius`, the centre (at `i = 0`) or the frames `c - i` and
   * `c + i`, each only when in range and still needing analysis.
   */
  method CollectCandidates(c: int, radius: int, total: int, scores: map<int, FrameScore>) returns (newPT: seq<int>)
    ensures newPT == Candidates(c, radius + 1, total, scores)
  {
    newPT := [];
    var i := 0;
    while i <= radius
      invariant 0 <= i <= if radius >= 0 then radius + 1 else 0
      invariant newPT == Candidates(c, i, total, scores)
    {
      ghost var before := newPT;
      if i == 0 {
        if NeedsAnalysis(scores, c) {
          newPT := newPT + [c];
        }
      } else {
        var pF := c - i;
        var nF := c + i;
        if pF >= 1 && NeedsAnalysis(scores, pF) {
          newPT := newPT + [pF];
        }
        if nF <= total && NeedsAnalysis(scores, nF) {
          newPT := newPT + [nF];
        }
      }
      assert newPT == before + Ring(c, i, total, scores);
      i := i + 1;
    }
  }

  /** The first occurrence of every element, in order: `[...new Set(s)]`. */
  function Dedupe(s: seq<int>): seq<int>
    decreases |s|
  {
    if s == [] then []
    else
      var d := Dedupe(s[..|s| - 1]);
      if s[|s| - 1] in d then d else d + [s[|s| - 1]]
  }

  /** On a list without duplicates the set conversion changes nothing. */
  lemma {:induction false} DedupeKeepsDistinct(s: seq<int>)
    requires NoDuplicates(s)
    ensures Dedupe(s) == s
    decreases |s|
  {
    if s != [] {
      var init := s[..|s| - 1];
      assert NoDuplicates(init);
      DedupeKeepsDistinct(init);
      assert s[|s| - 1] !in init;
      assert init + [s[|s| - 1]] == s;
    }
  }

  /** `old.filter(p => !fresh.includes(p))`. */
  function Without(queue: seq<int>, front: seq<int>): (r: seq<int>)
    ensures forall f :: f in r <==> f in queue && f !in front
    ensures |r| <= |queue|
    ensures (forall f :: f in queue ==> f !in front) ==> r == queue
  {
    if queue == [] then []
    else
      var rest := Without(queue[1..], front);
      var head: int := queue[0];
      if head in front then
        assert head in queue;
        rest
      else
        assert queue == [head] + queue[1..];
        [head] + rest
  }

  /** One step of the filter: the head is kept exactly when it is not in the new front. */
  lemma WithoutCons(x: int, t: seq<int>, front: seq<int>)
    ensures Without([x] + t, front) == (if x in front then [] else [x]) + Without(t, front)
  {
    assert ([x] + t)[0] == x && ([x] + t)[1..] == t;
  }

  /** The filter works entry by entry, so it keeps the old queue's order: filtering a concatenation filters each part. */
  lemma {:induction false} WithoutAppend(a: seq<int>, b: seq<int>, front: seq<int>)
    ensures Without(a + b, front) == Without(a, front) + Without(b, front)
  {
    if a == [] {
      assert a + b == b;
    } else {
      var x, t := a[0], a[1..];
      assert a == [x] + t && a + b == [x] + (t + b);
      WithoutCons(x, t + b, front);
      WithoutCons(x, t, front);
      WithoutAppend(t, b, front);
      var h := if x in front then [] else [x];
      SeqAssociate(h, Without(t, front), Without(b, front));
    }
  }

  lemma {:induction false} WithoutKeepsDistinct(queue: seq<int>, front: seq<int>)
    requires NoDuplicates(queue)
    ensures NoDuplicates(Without(queue, front))
  {
    if queue != [] {
      WithoutKeepsDistinct(queue[1..], front);
      var h := if queue[0] in front then [] else [queue[0]];
      var t := Without(queue[1..], front);
      assert queue[0] !in queue[1..] by {
        forall k | 0 <= k < |queue| - 1 ensures queue[1..][k] != queue[0] { assert queue[1..][k] == queue[k + 1]; }
      }
      var r := h + t;
      forall i, j | 0 <= i < j < |r| ensures r[i] != r[j] {
        if i < |h| { assert r[j] == t[j - 1] && r[j] in t; }
        else { assert r[i] == t[i - |h|] && r[j] == t[j - |h|]; }
      }
    }
  }

  /**
   * The merged queue `[...fresh, ...old.filter(p => !fresh.includes(p))]`
   * starts with the fresh frames, holds every frame of either part,
   * and has no duplicates when neither part had any.
   */
  lemma MergedQueue(front: seq<int>, queue: seq<int>)
    requires NoDuplicates(front) && NoDuplicates(queue)
    ensures var m := front + Without(queue, front);
      && m[..|front|] == front
      && (forall f :: f in m <==> f in front || f in queue)
      && NoDuplicates(m)
  {
    WithoutKeepsDistinct(queue, front);
    var w := Without(queue, front);
    var m := front + w;
    forall i, j | 0 <= i < j < |m| ensures m[i] != m[j] {
      if j < |front| { assert m[i] == front[i] && m[j] == front[j]; }
      else if i >= |front| { assert m[i] == w[i - |front|] && m[j] == w[j - |front|]; }
      else { assert m[i] == front[i] && m[i] in front && m[j] == w[j - |front|] && m[j] in w; }
    }
  }

  /** The queue that centre 7, radius 2 produces on an empty store of 20 frames. */
  lemma CandidatesExample()
    ensures Candidates(7, 3, 20, map[]) == [7, 6, 8, 5, 9]
  {
    assert Ring(7, 0, 20, map[]) == [7];
    assert Ring(7, 1, 20, map[]) == [6, 8];
    assert Ring(7, 2, 20, map[]) == [5, 9];
  }
}
