/**
 * The focused heatmap around the user's centre frame (webapp/src/App.jsx,
 * lines 261-300): one entry per frame of the window `[c - r, c + r]` clipped
 * to `[1, total]`, the first entry with the largest error-free score marked
 * as the local best, and every score normalised into `[0, 1]` against the
 * window's own minimum and range.
 */
module Focus {
  import opened Common
  import opened ScoreStore

  /** Below this range the window's scores count as all equal. */
  const TIME_EPSILON: real := 0.001

  /** One entry of `currentFocusData`, before the local best and the normalised score are added. */
  datatype FocusEntry = FocusEntry(
    frame: int,
    score: Option<real>,
    time: Option<real>,
    isCenter: bool,
    error: bool,
    needsAnalysis: bool)

  /** One element of the focused heatmap as it is displayed. */
  datatype FocusItem = FocusItem(entry: FocusEntry, isLocalBest: bool, normalizedScoreLocal: real)

  /** The entry for `frame`, looked up in the store. */
  function EntryOf(scores: map<int, FrameScore>, frame: int, center: int): (e: FocusEntry)
    ensures e.frame == frame && e.isCenter == (frame == center)
    ensures e.score.Some? <==> frame in scores
    ensures e.needsAnalysis == NeedsAnalysis(scores, frame)
    ensures e.error ==> e.needsAnalysis
    ensures frame in scores ==>
      e.score == Some(scores[frame].score) && e.time == Some(scores[frame].time) && e.error == scores[frame].error
    ensures frame !in scores ==> e.score.None? && e.time.None? && !e.error
  {
    if frame in scores then
      var sD := scores[frame];
      FocusEntry(frame, Some(sD.score), Some(sD.time), frame == center, sD.error, sD.error)
    else
      FocusEntry(frame, None, None, frame == center, false, true)
  }

  /** The first and last frame of the window. */
  function WindowLo(center: int, radius: int): int { Max(1, center - radius) }
  function WindowHi(center: int, radius: int, total: int): int { Min(total, center + radius) }

  /** The number of frames in the window. */
  function WindowSize(center: int, radius: int, total: int): nat {
    if WindowLo(center, radius) <= WindowHi(center, radius, total)
    then WindowHi(center, radius, total) - WindowLo(center, radius) + 1 else 0
  }

  /** `currentFocusData`: the entries of the window's frames in ascending order. */
  function Window(center: int, radius: int, total: int, scores: map<int, FrameScore>): seq<FocusEntry> {
    seq(WindowSize(center, radius, total), k => EntryOf(scores, WindowLo(center, radius) + k, center))
  }

  /** The frames an entry list covers. */
  function FramesOf(data: seq<FocusEntry>): set<int> {
    set k | 0 <= k < |data| :: data[k].frame
  }

  /** An entry that takes part in the local best, minimum and maximum: scored, without error. */
  predicate Scored(e: FocusEntry) { e.score.Some? && !e.error }

  /**
   * The loop over `i = -radius .. radius` that collects the entries of the
   * frames inside `[1, total]`: exactly the window's frames, in ascending
   * order, each with its own store entry.
   */
  method CollectWindow(center: int, radius: int, total: int, scores: map<int, FrameScore>)
    returns (data: seq<FocusEntry>)
    ensures data == Window(center, radius, total, scores)
  {
    data := [];
    var i := -radius;
    while i <= radius
      invariant radius >= 0 ==> -radius <= i <= radius + 1
      invariant radius < 0 ==> i == -radius
      invariant |data| == Max(0, Min(total, center + i - 1) - WindowLo(center, radius) + 1)
      invariant forall k :: 0 <= k < |data| ==>
        data[k] == EntryOf(scores, WindowLo(center, radius) + k, center)
    {
      var frame := center + i;
      if frame >= 1 && frame <= total {
        data := data + [EntryOf(scores, frame, center)];
      }
      i := i + 1;
    }
  }

  /**
   * The index of the entry the `forEach` over the first `n` entries leaves
   * in `localBestFrameData`: a scored entry replaces the current one only
   * when its score is strictly greater.
   */
  function BestUpTo(data: seq<FocusEntry>, n: nat): (r: Option<nat>)
    requires n <= |data|
    ensures r.Some? ==> r.value < n && Scored(data[r.value])
  {
    if n == 0 then None
    else
      var b := BestUpTo(data, n - 1);
      if Scored(data[n - 1]) && (b.None? || data[n - 1].score.value > data[b.value].score.value)
      then Some(n - 1) else b
  }

  /**
   * The local best is the first scored entry with the largest score: it beats
   * every scored entry before it, is at least as large as every one after
   * it, and is missing exactly when no entry is scored.
   */
  lemma {:induction false} BestUpToIsFirstMax(data: seq<FocusEntry>, n: nat)
    requires n <= |data|
    ensures BestUpTo(data, n).None? <==> forall k :: 0 <= k < n ==> !Scored(data[k])
    ensures BestUpTo(data, n).Some? ==>
      var b := BestUpTo(data, n).value;
      && b < n && Scored(data[b])
      && (forall k :: 0 <= k < b && Scored(data[k]) ==> data[k].score.value < data[b].score.value)
      && (forall k :: b < k < n && Scored(data[k]) ==> data[k].score.value <= data[b].score.value)
  {
    if n > 0 {
      BestUpToIsFirstMax(data, n - 1);
    }
  }

  /** The `forEach` that picks the local best, over `localBestScore` starting at minus infinity. */
  method PickLocalBest(data: seq<FocusEntry>) returns (best: Option<nat>)
    ensures best == BestUpTo(data, |data|)
  {
    best := None;
    var localBestScore: Bound := NegInf;
    var i := 0;
    while i < |data|
      invariant 0 <= i <= |data|
      invariant best == BestUpTo(data, i)
      invariant best.None? ==> localBestScore == NegInf
      invariant best.Some? ==> localBestScore == Finite(data[best.value].score.value)
    {
      var item := data[i];
      if item.score.Some? && !item.error && (localBestScore.NegInf? || item.score.value > localBestScore.v) {
        localBestScore := Finite(item.score.value);
        best := Some(i);
      }
      i := i + 1;
    }
  }

  /** `scoresInFocus`: the scores of the scored entries, in order. */
  function ScoresInFocus(data: seq<FocusEntry>): (r: seq<real>)
    ensures |r| <= |data|
    ensures forall k :: 0 <= k < |data| && Scored(data[k]) ==> data[k].score.value in r
    ensures forall s :: s in r ==> exists k :: 0 <= k < |data| && Scored(data[k]) && data[k].score.value == s
  {
    if data == [] then []
    else
      var rest := ScoresInFocus(data[1..]);
      assert forall k :: 1 <= k < |data| ==> data[k] == data[1..][k - 1];
      if Scored(data[0]) then [data[0].score.value] + rest else rest
  }

  /** `Math.min(...s)` of a non-empty list. */
  function Least(s: seq<real>): (m: real)
    requires s != []
    ensures m in s && forall x :: x in s ==> m <= x
  {
    if |s| == 1 then s[0]
    else
      var m := Least(s[1..]);
      assert forall x :: x in s[1..] ==> x in s;
      assert forall x :: x in s && x != s[0] ==> x in s[1..];
      if s[0] <= m then s[0] else m
  }

  /** `Math.max(...s)` of a non-empty list. */
  function Greatest(s: seq<real>): (m: real)
    requires s != []
    ensures m in s && forall x :: x in s ==> x <= m
  {
    if |s| == 1 then s[0]
    else
      var m := Greatest(s[1..]);
      assert forall x :: x in s[1..] ==> x in s;
      assert forall x :: x in s && x != s[0] ==> x in s[1..];
      if s[0] >= m then s[0] else m
  }

  function MinL(data: seq<FocusEntry>): real {
    var s := ScoresInFocus(data);
    if |s| > 0 then Least(s) else 0.0
  }

  function MaxL(data: seq<FocusEntry>): real {
    var s := ScoresInFocus(data);
    if |s| > 0 then Greatest(s) else 0.0
  }

  /** `normalizedScoreLocal` of one entry. */
  function Normalized(d: FocusEntry, data: seq<FocusEntry>): real {
    var rangeL := MaxL(data) - MinL(data);
    if d.score.None? || d.error then 0.5
    else if rangeL > TIME_EPSILON then (d.score.value - MinL(data)) / rangeL
    else if |ScoresInFocus(data)| > 0 then 0.5 else 0.0
  }

  /** The displayed window: every entry with its local-best flag and normalised score. */
  function FocusData(data: seq<FocusEntry>): seq<FocusItem> {
    var best := BestUpTo(data, |data|);
    seq(|data|, k requires 0 <= k < |data| =>
      FocusItem(data[k], best.Some? && data[k].frame == data[best.value].frame, Normalized(data[k], data)))
  }

  /** The window's minimum and maximum enclose every scored entry. */
  lemma {:induction false} WindowBounds(data: seq<FocusEntry>, k: nat)
    requires k < |data| && Scored(data[k])
    ensures MinL(data) <= data[k].score.value <= MaxL(data)
  {
    var s := ScoresInFocus(data);
    assert data[k].score.value in s;
  }

  lemma RatioInUnit(x: real, d: real)
    requires 0.0 <= x <= d && d > 0.0
    ensures 0.0 <= x / d <= 1.0
  {
    var q := x / d;
    assert q * d == x;
    assert (1.0 - q) * d >= 0.0;
  }

  /** Every normalised score lies in `[0, 1]`; unscored and failed entries sit at the middle. */
  lemma NormalizedInUnit(data: seq<FocusEntry>, k: nat)
    requires k < |data|
    ensures 0.0 <= Normalized(data[k], data) <= 1.0
    ensures !Scored(data[k]) ==> Normalized(data[k], data) == 0.5
  {
    if Scored(data[k]) {
      WindowBounds(data, k);
      var rangeL := MaxL(data) - MinL(data);
      if rangeL > TIME_EPSILON {
        var x := data[k].score.value - MinL(data);
        assert Normalized(data[k], data) == x / rangeL;
        RatioInUnit(x, rangeL);
      }
    }
  }

  /**
   * On a window of distinct frames at most one item is the local best: the
   * first scored entry with the largest score, and none when no entry is
   * scored.
   */
  lemma LocalBestIsUnique(data: seq<FocusEntry>)
    requires forall i, j :: 0 <= i < j < |data| ==> data[i].frame != data[j].frame
    ensures var r := FocusData(data);
      && (forall i, j :: 0 <= i < j < |r| && r[i].isLocalBest ==> !r[j].isLocalBest)
      && (forall i :: 0 <= i < |r| && r[i].isLocalBest ==>
            && Scored(data[i])
            && (forall k :: 0 <= k < |data| && Scored(data[k]) ==> data[k].score.value <= data[i].score.value)
            && (forall k :: 0 <= k < i && Scored(data[k]) ==> data[k].score.value < data[i].score.value))
      && ((exists k :: 0 <= k < |data| && Scored(data[k])) ==> exists i :: 0 <= i < |r| && r[i].isLocalBest)
  {
    BestUpToIsFirstMax(data, |data|);
    var r := FocusData(data);
    var best := BestUpTo(data, |data|);
    forall i | 0 <= i < |r| && r[i].isLocalBest ensures i == best.value {
      assert data[i].frame == data[best.value].frame;
    }
    if exists k :: 0 <= k < |data| && Scored(data[k]) {
      assert r[best.value].isLocalBest;
    }
  }

  /** The window holds the frames `[max(1, c - r), min(total, c + r)]` in ascending order. */
  lemma WindowFrames(center: int, radius: int, total: int, scores: map<int, FrameScore>)
    ensures var data := Window(center, radius, total, scores);
      && (forall k :: 0 <= k < |data| ==> data[k] == EntryOf(scores, data[k].frame, center))
      && (forall f :: f in FramesOf(data) <==> 1 <= f <= total && center - radius <= f <= center + radius)
      && (forall i, j :: 0 <= i < j < |data| ==> data[i].frame < data[j].frame)
  {
    var data := Window(center, radius, total, scores);
    var lo, hi := WindowLo(center, radius), WindowHi(center, radius, total);
    assert |data| == WindowSize(center, radius, total);
    forall k | 0 <= k < |data| ensures data[k].frame == lo + k && lo <= data[k].frame <= hi {
      assert data[k] == EntryOf(scores, lo + k, center);
    }
    forall f | 1 <= f <= total && center - radius <= f <= center + radius
      ensures f in FramesOf(data)
    {
      var k := f - lo;
      assert data[k].frame == f;
    }
  }

  /**
   * The focused-heatmap effect: rebuilt while it is shown with a centre and
   * frames, emptied once it is hidden and not already empty, and otherwise
   * left as it was.
   */
  method UpdateFocus(show: bool, center: int, radius: int, total: int, scores: map<int, FrameScore>,
                     previous: seq<FocusItem>)
    returns (r: seq<FocusItem>)
    ensures show && center > 0 && total > 0 ==> r == FocusData(Window(center, radius, total, scores))
    ensures !(show && center > 0 && total > 0) ==> r == (if !show && |previous| > 0 then [] else previous)
  {
    if show && center > 0 && total > 0 {
      var data := CollectWindow(center, radius, total, scores);
      var best := PickLocalBest(data);
      r := seq(|data|, k requires 0 <= k < |data| =>
        FocusItem(data[k], best.Some? && data[k].frame == data[best.value].frame, Normalized(data[k], data)));
    } else if !show && |previous| > 0 {
      r := [];
    } else {
      r := previous;
    }
  }
}
