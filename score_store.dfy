/**
 * The vocabulary of the score store (`analysisTaskController.analyzedScores`,
 * `globalMinScore`, `globalMaxScore` and the overall best frame in
 * webapp/src/App.jsx): per-frame results, the widened bounds and the
 * replacement rule for the overall best.
 */
module ScoreStore {
  import opened Common

  /** A stored result: `{score, time, frame, error}`. */
  datatype FrameScore = FrameScore(score: real, time: real, frame: int, error: bool)

  /**
   * What the asynchronous part of one analysis produced: a score from a worker,
   * a failure anywhere in seek, sampling or scoring, or nothing at all (the
   * task returned `null` before storing, after a cancellation or when the
   * analysis element was not ready).
   */
  datatype Outcome = Scored(score: real, time: real) | Failed(time: real) | Abandoned

  /** A real extended with the `Infinity` and `-Infinity` the bounds start from. */
  datatype Bound = NegInf | Finite(v: real) | PosInf

  predicate AtMost(a: Bound, b: Bound) {
    a.NegInf? || b.PosInf? || (a.Finite? && b.Finite? && a.v <= b.v)
  }

  /** `Math.min(bound, s)`. */
  function Lower(b: Bound, s: real): (r: Bound)
    ensures AtMost(r, b) && AtMost(r, Finite(s))
    ensures r == b || r == Finite(s)
  {
    if AtMost(b, Finite(s)) then b else Finite(s)
  }

  /** `Math.max(bound, s)`. */
  function Raise(b: Bound, s: real): (r: Bound)
    ensures AtMost(b, r) && AtMost(Finite(s), r)
    ensures r == b || r == Finite(s)
  {
    if AtMost(Finite(s), b) then b else Finite(s)
  }

  /**
   * `!analyzedScores.has(f) || analyzedScores.get(f)?.error`: the frame has
   * no result yet, or only an error-flagged one, so it is (re)analysed.
   */
  predicate NeedsAnalysis(scores: map<int, FrameScore>, f: int) {
    f !in scores || scores[f].error
  }

  /** The overall best is replaced when there is none, it is error-flagged, or `s` is strictly greater. */
  predicate ReplacesBest(best: Option<FrameScore>, s: real) {
    best.None? || best.value.error || s > best.value.score
  }

  /** The bounds enclose every successful score in the store. */
  ghost predicate WithinBounds(scores: map<int, FrameScore>, lo: Bound, hi: Bound) {
    forall f :: f in scores && !scores[f].error ==>
      AtMost(lo, Finite(scores[f].score)) && AtMost(Finite(scores[f].score), hi)
  }

  /**
   * The overall best is a successful result at least as high as every
   * successful score stored; there is none only while nothing has succeeded.
   */
  ghost predicate BestDominates(best: Option<FrameScore>, scores: map<int, FrameScore>) {
    && (best.None? ==> forall f :: f in scores ==> scores[f].error)
    && (best.Some? ==>
          && !best.value.error
          && forall f :: f in scores && !scores[f].error ==> scores[f].score <= best.value.score)
  }

  /** The store fields together: results, global bounds and the overall best. */
  datatype Store = Store(scores: map<int, FrameScore>, lo: Bound, hi: Bound, best: Option<FrameScore>)

  /**
   * Storing the outcome of analysing `frame`: a success is stored without
   * error, widens both bounds and replaces the overall best by the rule; a
   * failure is stored with score 0 and the error flag and touches nothing
   * else; an abandoned analysis stores nothing.
   */
  function Record(st: Store, frame: int, outcome: Outcome): (r: Store)
    ensures outcome.Abandoned? ==> r == st
    ensures forall f :: f != frame && f in st.scores ==> f in r.scores && r.scores[f] == st.scores[f]
    ensures outcome.Scored? ==>
      && r.scores == st.scores[frame := FrameScore(outcome.score, outcome.time, frame, false)]
      && !NeedsAnalysis(r.scores, frame)
      && r.lo == Lower(st.lo, outcome.score) && r.hi == Raise(st.hi, outcome.score)
      && AtMost(r.lo, Finite(outcome.score)) && AtMost(Finite(outcome.score), r.hi)
      && r.best == (if ReplacesBest(st.best, outcome.score) then Some(r.scores[frame]) else st.best)
      && r.best.Some?
    ensures outcome.Failed? ==>
      && r.scores == st.scores[frame := FrameScore(0.0, outcome.time, frame, true)]
      && NeedsAnalysis(r.scores, frame)
      && r.lo == st.lo && r.hi == st.hi && r.best == st.best
  {
    match outcome
    case Scored(s, t) =>
      var entry := FrameScore(s, t, frame, false);
      Store(st.scores[frame := entry], Lower(st.lo, s), Raise(st.hi, s),
            if ReplacesBest(st.best, s) then Some(entry) else st.best)
    case Failed(t) =>
      Store(st.scores[frame := FrameScore(0.0, t, frame, true)], st.lo, st.hi, st.best)
    case Abandoned =>
      st
  }

  /**
   * Recording keeps the store invariants: the bounds still enclose every
   * successful score and the overall best still dominates them, even when a
   * later result for the same frame overwrites an earlier one.
   */
  lemma RecordKeepsInvariants(st: Store, frame: int, outcome: Outcome)
    requires WithinBounds(st.scores, st.lo, st.hi) && BestDominates(st.best, st.scores)
    ensures var r := Record(st, frame, outcome);
      WithinBounds(r.scores, r.lo, r.hi) && BestDominates(r.best, r.scores)
  {
    var r := Record(st, frame, outcome);
    if outcome.Scored? {
      var s := outcome.score;
      forall f | f in r.scores && !r.scores[f].error
        ensures AtMost(r.lo, Finite(r.scores[f].score)) && AtMost(Finite(r.scores[f].score), r.hi)
      {
        if f != frame {
          assert r.scores[f] == st.scores[f];
        }
      }
      if !ReplacesBest(st.best, s) {
        assert st.best.Some? && s <= st.best.value.score;
      }
    }
  }
}
