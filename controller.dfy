/**
 * The analysis session state, `analysisTaskController` of webapp/src/App.jsx
 * (lines 32-39), and the sequential code that mutates it: the reset effect,
 * the scheduler tick, the priority enqueue, the pause-flag writes of the
 * user handlers and the completion of one frame analysis. Asynchronous work (seeking, sampling, the worker's reply) arrives
 * as the `Outcome` given to `Complete`.
 */
module Controller {
  import opened Common
  import opened Segments
  import opened ScoreStore
  import opened Scheduler
  import opened Priority

  /**
   * The queue part of the session invariant: at most `NUM_WORKERS` analyses
   * counted as running, the recursive queue inside `[1, total]`, no frame
   * twice in the priority queue, and every frame of `[1, total]` either still
   * covered by exactly one queued segment or already taken as a midpoint,
   * exactly once (`explored` counts the midpoints taken so far).
   */
  ghost predicate QueueInv(q: Queues, explored: multiset<int>, total: int) {
    && q.active <= NUM_WORKERS
    && total >= 0
    && AllWithin(q.recursive, total)
    && NoDuplicates(q.priority)
    && forall f :: Cover(q.recursive, f) + explored[f] == (if 1 <= f <= total then 1 else 0)
  }

  /**
   * The store part: results are keyed by their own frame, the global bounds
   * enclose every successful score, and the overall best dominates them. The
   * keys need not lie in `[1, total]`: an analysis started before a reset to a
   * shorter video can still store its frame afterwards.
   */
  ghost predicate StoreInv(scores: map<int, FrameScore>, lo: Bound, hi: Bound, best: Option<FrameScore>) {
    && (forall f :: f in scores ==> scores[f].frame == f)
    && WithinBounds(scores, lo, hi)
    && BestDominates(best, scores)
  }

  /** A whole tick keeps the queue invariant, with its midpoints added to the explored frames. */
  lemma DrainKeepsQueueInv(q: Queues, paused: bool, scores: map<int, FrameScore>, explored: multiset<int>, total: int)
    requires QueueInv(q, explored, total)
    ensures QueueInv(Drain(q, paused, scores).0, explored + Mids(Drain(q, paused, scores).1), total)
  {
    var (r, ps) := Drain(q, paused, scores);
    DrainRespectsCapacity(q, paused, scores);
    DrainConsumesPriority(q, paused, scores);
    var k := |q.priority| - |r.priority|;
    assert NoDuplicates(r.priority) by {
      forall i, j | 0 <= i < j < |r.priority| ensures r.priority[i] != r.priority[j] {
        assert r.priority[i] == q.priority[k + i] && r.priority[j] == q.priority[k + j];
      }
    }
    forall f ensures Cover(r.recursive, f) + (explored + Mids(ps))[f] == (if 1 <= f <= total then 1 else 0) {
      DrainCoverage(q, paused, scores, total, f);
    }
    DrainCoverage(q, paused, scores, total, 0);
  }

  /**
   * Once the recursive queue is empty, every frame of `[1, total]` has been
   * the midpoint of exactly one segment, and no other frame has.
   */
  lemma ExhaustedMeansEveryFrameOnce(q: Queues, explored: multiset<int>, total: int)
    requires QueueInv(q, explored, total) && q.recursive == []
    ensures forall f :: explored[f] == (if 1 <= f <= total then 1 else 0)
  {
    forall f ensures explored[f] == (if 1 <= f <= total then 1 else 0) {
      assert Cover(q.recursive, f) == 0;
    }
  }

  /** The result `analyzeSingleFrame` returns straight from the store: a result without error. */
  function CachedResult(scores: map<int, FrameScore>, f: int): (r: Option<FrameScore>)
    ensures r.Some? <==> !NeedsAnalysis(scores, f)
    ensures r.Some? ==> r.value == scores[f] && !r.value.error
  {
    if f in scores && !scores[f].error then Some(scores[f]) else None
  }

  /**
   * The tick tests the same condition as the cache check and nothing runs in
   * between, so an analysis the tick starts never returns a cached result.
   */
  lemma TickLaunchesMissCache(q: Queues, paused: bool, scores: map<int, FrameScore>)
    ensures forall l :: l in Launches(Drain(q, paused, scores).1) ==> CachedResult(scores, l.frame).None?
  {
    DrainFollowsStore(q, paused, scores);
    LaunchesNeedAnalysis(Drain(q, paused, scores).1, scores);
  }

  /** Moving distinct frames to the front of the priority queue keeps the queue invariant. */
  lemma FrontKeepsQueueInv(q: Queues, explored: multiset<int>, total: int, front: seq<int>)
    requires QueueInv(q, explored, total) && NoDuplicates(front)
    ensures QueueInv(q.(priority := front + Without(q.priority, front)), explored, total)
  {
    MergedQueue(front, q.priority);
  }

  /** The session state of the analysis. */
  class AnalysisController {
    var isGloballyCancelled: bool
    var isRecursiveAnalysisPaused: bool
    var recursiveQueue: seq<Segment>
    var priorityQueue: seq<int>
    var analyzedScores: map<int, FrameScore>
    var globalMinScore: Bound
    var globalMaxScore: Bound
    var currentFocusedCenterFrame: int
    var activeAnalysisProcesses: int
    /** The session's frame count, `totalFrames`. */
    var totalFrames: int
    /** The overall best result, `overallBestFrame`. */
    var overallBestFrame: Option<FrameScore>
    /** The midpoints taken from the recursive queue since the last reset. */
    ghost var explored: multiset<int>

    function Queue(): Queues
      reads this
    {
      Queues(priorityQueue, recursiveQueue, activeAnalysisProcesses)
    }

    ghost predicate Valid()
      reads this
    {
      && QueueInv(Queue(), explored, totalFrames)
      && StoreInv(analyzedScores, globalMinScore, globalMaxScore, overallBestFrame)
    }

    /** The record as the module initialises it, before any video is loaded. */
    constructor ()
      ensures Valid()
      ensures !isGloballyCancelled && !isRecursiveAnalysisPaused
      ensures recursiveQueue == [] && priorityQueue == [] && analyzedScores == map[]
      ensures globalMinScore == PosInf && globalMaxScore == NegInf
      ensures currentFocusedCenterFrame == 0 && activeAnalysisProcesses == 0
      ensures totalFrames == 0 && overallBestFrame == None
    {
      isGloballyCancelled := false;
      isRecursiveAnalysisPaused := false;
      recursiveQueue := [];
      priorityQueue := [];
      analyzedScores := map[];
      globalMinScore := PosInf;
      globalMaxScore := NegInf;
      currentFocusedCenterFrame := 0;
      activeAnalysisProcesses := 0;
      totalFrames := 0;
      overallBestFrame := None;
      explored := multiset{};
    }

    /**
     * The reset effect for a loaded video of `total` frames: a fresh session
     * whose recursive queue is the single segment `[1, total]` at depth 0.
     * Nothing happens while there are no frames.
     */
    method Reset(total: int)
      requires Valid()
      modifies this
      ensures Valid()
      ensures total <= 0 ==>
        && Queue() == old(Queue()) && Stored() == old(Stored())
        && totalFrames == old(totalFrames) && isGloballyCancelled == old(isGloballyCancelled)
        && isRecursiveAnalysisPaused == old(isRecursiveAnalysisPaused)
        && currentFocusedCenterFrame == old(currentFocusedCenterFrame) && explored == old(explored)
      ensures total > 0 ==>
        && !isGloballyCancelled && !isRecursiveAnalysisPaused
        && recursiveQueue == [Segment(1, total, 0)] && priorityQueue == []
        && analyzedScores == map[]
        && globalMinScore == PosInf && globalMaxScore == NegInf
        && currentFocusedCenterFrame == 0 && activeAnalysisProcesses == 0
        && totalFrames == total && overallBestFrame == None
    {
      if total > 0 {
        isGloballyCancelled := false;
        isRecursiveAnalysisPaused := false;
        recursiveQueue := [Segment(1, total, 0)];
        priorityQueue := [];
        analyzedScores := map[];
        globalMinScore := PosInf;
        globalMaxScore := NegInf;
        currentFocusedCenterFrame := 0;
        activeAnalysisProcesses := 0;
        totalFrames := total;
        overallBestFrame := None;
        explored := multiset{};
        forall f ensures Cover(recursiveQueue, f) + explored[f] == (if 1 <= f <= total then 1 else 0) {
          assert recursiveQueue[1..] == [];
        }
      }
    }

    /** The effect cleanup: cancel the session and forget the running count. */
    method Teardown()
      requires Valid()
      modifies this
      ensures Valid()
      ensures isGloballyCancelled && activeAnalysisProcesses == 0
      ensures priorityQueue == old(priorityQueue) && recursiveQueue == old(recursiveQueue)
      ensures Stored() == old(Stored()) && totalFrames == old(totalFrames)
      ensures isRecursiveAnalysisPaused == old(isRecursiveAnalysisPaused)
      ensures currentFocusedCenterFrame == old(currentFocusedCenterFrame) && explored == old(explored)
    {
      isGloballyCancelled := true;
      activeAnalysisProcesses := 0;
    }

    /**
     * The end of a user interaction (the settle timer and the step buttons):
     * the recursive work resumes once the priority queue is empty, and stays
     * paused while focused frames are still waiting.
     */
    method EndInteraction()
      requires Valid()
      modifies this
      ensures Valid()
      ensures isRecursiveAnalysisPaused == (old(isRecursiveAnalysisPaused) && priorityQueue != [])
      ensures Queue() == old(Queue()) && Stored() == old(Stored()) && totalFrames == old(totalFrames)
      ensures isGloballyCancelled == old(isGloballyCancelled)
      ensures currentFocusedCenterFrame == old(currentFocusedCenterFrame) && explored == old(explored)
    {
      if |priorityQueue| == 0 {
        isRecursiveAnalysisPaused := false;
      }
    }

    /**
     * Starting playback (the play button and the video's `onPlay` handler):
     * the recursive work resumes at once, whatever the priority queue holds.
     */
    method Resume()
      requires Valid()
      modifies this
      ensures Valid()
      ensures !isRecursiveAnalysisPaused
      ensures Queue() == old(Queue()) && Stored() == old(Stored()) && totalFrames == old(totalFrames)
      ensures isGloballyCancelled == old(isGloballyCancelled)
      ensures currentFocusedCenterFrame == old(currentFocusedCenterFrame) && explored == old(explored)
    {
      isRecursiveAnalysisPaused := false;
    }

    /**
     * The start of a user seek: the recursive work is paused unless the
     * session is cancelled, in which case the seek does nothing.
     */
    method PauseForSeek()
      requires Valid()
      modifies this
      ensures Valid()
      ensures isRecursiveAnalysisPaused == (old(isGloballyCancelled) ==> old(isRecursiveAnalysisPaused))
      ensures Queue() == old(Queue()) && Stored() == old(Stored()) && totalFrames == old(totalFrames)
      ensures isGloballyCancelled == old(isGloballyCancelled)
      ensures currentFocusedCenterFrame == old(currentFocusedCenterFrame) && explored == old(explored)
    {
      if isGloballyCancelled {
        return;
      }
      isRecursiveAnalysisPaused := true;
    }

    /** Everything outside the queues, the running count and the pause flag is as it was. */
    twostate predicate OnlyQueuesChanged()
      reads this
    {
      && analyzedScores == old(analyzedScores) && totalFrames == old(totalFrames)
      && globalMinScore == old(globalMinScore) && globalMaxScore == old(globalMaxScore)
      && overallBestFrame == old(overallBestFrame) && explored == old(explored)
      && isGloballyCancelled == old(isGloballyCancelled)
      && currentFocusedCenterFrame == old(currentFocusedCenterFrame)
    }

    /** Pushes the non-empty halves of `segment` around `mid`, lower half first. */
    method PushHalves(segment: Segment, mid: int)
      requires segment.startFrame <= segment.endFrame && mid == Mid(segment)
      modifies this
      ensures recursiveQueue == old(recursiveQueue) + Children(segment)
      ensures priorityQueue == old(priorityQueue) && activeAnalysisProcesses == old(activeAnalysisProcesses)
      ensures isRecursiveAnalysisPaused == old(isRecursiveAnalysisPaused)
      ensures OnlyQueuesChanged()
    {
      if mid - 1 >= segment.startFrame {
        recursiveQueue := recursiveQueue + [Segment(segment.startFrame, mid - 1, segment.depth + 1)];
      }
      if mid + 1 <= segment.endFrame {
        recursiveQueue := recursiveQueue + [Segment(mid + 1, segment.endFrame, segment.depth + 1)];
      }
    }

    /** The priority branch of a pass: shift the head and start it when it still needs analysis. */
    method PopPriorityPass() returns (started: Option<Launch>, ghost pass: Pass)
      requires priorityQueue != []
      modifies this
      ensures Queue() == PopPriority(old(Queue()), analyzedScores).0
      ensures pass == PopPriority(old(Queue()), analyzedScores).1
      ensures Launches([pass]) == (if started.Some? then [started.value] else [])
      ensures isRecursiveAnalysisPaused == old(isRecursiveAnalysisPaused)
      ensures OnlyQueuesChanged()
    {
      var frame := priorityQueue[0];
      priorityQueue := priorityQueue[1..];
      started := None;
      if frame != 0 && NeedsAnalysis(analyzedScores, frame) {
        activeAnalysisProcesses := activeAnalysisProcesses + 1;
        started := Some(Launch(frame, true));
      }
      pass := PriorityPop(frame, started.Some?);
      assert [pass][1..] == [];
    }

    /**
     * The recursive branch of a pass: sort the queue in place, shift the first
     * segment, take its midpoint, push the halves and start the midpoint when
     * it still needs analysis; an inverted segment is dropped (`continue`).
     */
    method SplitFirstPass() returns (started: Option<Launch>, ghost pass: Pass)
      requires recursiveQueue != []
      modifies this
      ensures Queue() == SplitFirst(old(Queue()), analyzedScores).0
      ensures pass == SplitFirst(old(Queue()), analyzedScores).1
      ensures Launches([pass]) == (if started.Some? then [started.value] else [])
      ensures isRecursiveAnalysisPaused == old(isRecursiveAnalysisPaused)
      ensures OnlyQueuesChanged()
    {
      SortIsOrderedPermutation(recursiveQueue);
      recursiveQueue := Sort(recursiveQueue);
      var segment := recursiveQueue[0];
      recursiveQueue := recursiveQueue[1..];
      started := None;
      if segment.startFrame > segment.endFrame {
        pass := Discard(segment);
        assert [pass][1..] == [];
        return;
      }
      var frame := Mid(segment);
      if frame != 0 && NeedsAnalysis(analyzedScores, frame) {
        activeAnalysisProcesses := activeAnalysisProcesses + 1;
        PushHalves(segment, frame);
        started := Some(Launch(frame, false));
      } else if frame != 0 {
        PushHalves(segment, frame);
      }
      pass := if frame == 0 then Discard(segment) else Split(segment, frame, started.Some?);
      assert [pass][1..] == [];
    }

    /** One pass of the loop body: the priority branch while priority work is queued, else the recursive one. */
    method RunPass() returns (started: Option<Launch>, ghost pass: Pass)
      requires Continues(Queue(), isRecursiveAnalysisPaused)
      modifies this
      ensures isRecursiveAnalysisPaused == old(isRecursiveAnalysisPaused)
      ensures OnlyQueuesChanged()
      ensures Queue() == Step(old(Queue()), isRecursiveAnalysisPaused, analyzedScores).0
      ensures pass == Step(old(Queue()), isRecursiveAnalysisPaused, analyzedScores).1
      ensures Launches([pass]) == (if started.Some? then [started.value] else [])
    {
      if priorityQueue != [] {
        started, pass := PopPriorityPass();
      } else {
        started, pass := SplitFirstPass();
      }
    }

    /** The loop of the tick: passes while a worker is free and there is work, as `Drain` specifies. */
    method RunPasses() returns (launched: seq<Launch>, ghost passes: seq<Pass>)
      modifies this
      ensures Queue() == Drain(old(Queue()), isRecursiveAnalysisPaused, analyzedScores).0
      ensures passes == Drain(old(Queue()), isRecursiveAnalysisPaused, analyzedScores).1
      ensures launched == Launches(passes)
      ensures isRecursiveAnalysisPaused == old(isRecursiveAnalysisPaused)
      ensures OnlyQueuesChanged()
    {
      ghost var start := Queue();
      ghost var paused := isRecursiveAnalysisPaused;
      ghost var scores := analyzedScores;
      ghost var total := Drain(start, paused, scores);
      launched := [];
      passes := [];
      assert passes + total.1 == total.1;
      while activeAnalysisProcesses < NUM_WORKERS
            && (priorityQueue != [] || (!isRecursiveAnalysisPaused && recursiveQueue != []))
        invariant isRecursiveAnalysisPaused == paused && analyzedScores == scores
        invariant total.0 == Drain(Queue(), paused, scores).0
        invariant total.1 == passes + Drain(Queue(), paused, scores).1
        invariant launched == Launches(passes)
        invariant OnlyQueuesChanged()
        decreases Measure(Queue())
      {
        ghost var before := Queue();
        var started;
        ghost var pass;
        started, pass := RunPass();
        DrainUnfold(before, paused, scores);
        ghost var rest := Drain(Queue(), paused, scores).1;
        PassesAssociate(passes, pass, rest);
        if started.Some? {
          launched := launched + [started.value];
        }
        LaunchesAppend(passes, [pass]);
        passes := passes + [pass];
      }
      assert passes + [] == passes;
    }

    /**
     * One scheduler tick. A cancelled session does nothing; a seek held by the
     * user defers the tick; a user interaction with no priority work pauses the
     * recursive work and defers; otherwise the pause is lifted when the user is
     * not interacting, and the loop runs exactly as `Drain` specifies, returning
     * the analyses it started.
     */
    method Tick(userInteracting: bool, seekHeldByUser: bool) returns (launched: seq<Launch>)
      requires Valid()
      modifies this
      ensures Valid()
      ensures analyzedScores == old(analyzedScores) && totalFrames == old(totalFrames)
      ensures globalMinScore == old(globalMinScore) && globalMaxScore == old(globalMaxScore)
      ensures overallBestFrame == old(overallBestFrame) && isGloballyCancelled == old(isGloballyCancelled)
      ensures currentFocusedCenterFrame == old(currentFocusedCenterFrame)
      ensures old(isGloballyCancelled) || seekHeldByUser ==>
        && launched == [] && Queue() == old(Queue()) && explored == old(explored)
        && isRecursiveAnalysisPaused == old(isRecursiveAnalysisPaused)
      ensures !old(isGloballyCancelled) && !seekHeldByUser && userInteracting && old(priorityQueue) == [] ==>
        launched == [] && Queue() == old(Queue()) && explored == old(explored) && isRecursiveAnalysisPaused
      ensures !old(isGloballyCancelled) && !seekHeldByUser && !(userInteracting && old(priorityQueue) == []) ==>
        && isRecursiveAnalysisPaused == (userInteracting && old(isRecursiveAnalysisPaused))
        && Queue() == Drain(old(Queue()), isRecursiveAnalysisPaused, analyzedScores).0
        && launched == Launches(Drain(old(Queue()), isRecursiveAnalysisPaused, analyzedScores).1)
        && explored == old(explored) + Mids(Drain(old(Queue()), isRecursiveAnalysisPaused, analyzedScores).1)
    {
      launched := [];
      if isGloballyCancelled || seekHeldByUser {
        return;
      }
      if userInteracting && priorityQueue == [] {
        isRecursiveAnalysisPaused := true;
        return;
      } else if !userInteracting {
        isRecursiveAnalysisPaused := false;
      }
      ghost var passes;
      DrainKeepsQueueInv(Queue(), isRecursiveAnalysisPaused, analyzedScores, explored, totalFrames);
      launched, passes := RunPasses();
      explored := explored + Mids(passes);
    }

    /** The store fields as one value. */
    function Stored(): Store
      reads this
    {
      Store(analyzedScores, globalMinScore, globalMaxScore, overallBestFrame)
    }

    /**
     * The end of one analysis of `frame`: the outcome is stored and the
     * running count drops by one. The range and cancellation test of
     * `analyzeSingleFrame` runs when the analysis starts, so an analysis it
     * refused arrives here as `Abandoned`; nothing re-checks the range or the
     * store at completion, so a frame started twice keeps whichever result
     * arrives last, and one started before a reset is stored in the new
     * session.
     */
    method Complete(frame: int, outcome: Outcome)
      requires Valid()
      modifies this
      ensures Valid()
      ensures activeAnalysisProcesses == old(activeAnalysisProcesses) - 1
      ensures Stored() == Record(old(Stored()), frame, outcome)
      ensures priorityQueue == old(priorityQueue) && recursiveQueue == old(recursiveQueue)
      ensures totalFrames == old(totalFrames) && isGloballyCancelled == old(isGloballyCancelled)
      ensures isRecursiveAnalysisPaused == old(isRecursiveAnalysisPaused)
      ensures currentFocusedCenterFrame == old(currentFocusedCenterFrame)
    {
      var entry: FrameScore;
      match outcome {
        case Scored(score, time) =>
          entry := FrameScore(score, time, frame, false);
          analyzedScores := analyzedScores[frame := entry];
          globalMinScore := Lower(globalMinScore, score);
          globalMaxScore := Raise(globalMaxScore, score);
          if ReplacesBest(overallBestFrame, score) {
            overallBestFrame := Some(entry);
          }
        case Failed(time) =>
          entry := FrameScore(0.0, time, frame, true);
          analyzedScores := analyzedScores[frame := entry];
        case Abandoned =>
      }
      RecordKeepsInvariants(old(Stored()), frame, outcome);
      activeAnalysisProcesses := activeAnalysisProcesses - 1;
    }

    /**
     * A user focus on `centerFrame`: the frames around it that still need
     * analysis, nearest first, go to the front of the priority queue, ahead of
     * the old entries not among them, and the recursive work is paused. The
     * call does nothing without frames, without a centre or once cancelled.
     * Returns whether a tick is to be scheduled.
     */
    method TriggerPriority(centerFrame: int, radius: int) returns (reschedule: bool)
      requires Valid()
      modifies this
      ensures Valid()
      ensures Queue().recursive == old(Queue().recursive) && activeAnalysisProcesses == old(activeAnalysisProcesses)
      ensures Stored() == old(Stored()) && totalFrames == old(totalFrames)
      ensures isGloballyCancelled == old(isGloballyCancelled)
      ensures old(totalFrames) == 0 || centerFrame == 0 || old(isGloballyCancelled) ==>
        && !reschedule && priorityQueue == old(priorityQueue)
        && isRecursiveAnalysisPaused == old(isRecursiveAnalysisPaused)
        && currentFocusedCenterFrame == old(currentFocusedCenterFrame)
      ensures !(old(totalFrames) == 0 || centerFrame == 0 || old(isGloballyCancelled)) ==>
        var front := Candidates(centerFrame, radius + 1, totalFrames, analyzedScores);
        && priorityQueue == front + Without(old(priorityQueue), front)
        && isRecursiveAnalysisPaused
        && currentFocusedCenterFrame == centerFrame
        && reschedule == (front != [])
    {
      if totalFrames == 0 || centerFrame == 0 || isGloballyCancelled {
        return false;
      }
      currentFocusedCenterFrame := centerFrame;
      var newPT := CollectCandidates(centerFrame, radius, totalFrames, analyzedScores);
      CandidatesNearestFirst(centerFrame, radius + 1, totalFrames, analyzedScores);
      DedupeKeepsDistinct(newPT);
      var uNT := Dedupe(newPT);
      FrontKeepsQueueInv(Queue(), explored, totalFrames, uNT);
      priorityQueue := uNT + Without(priorityQueue, uNT);
      isRecursiveAnalysisPaused := true;
      reschedule := |uNT| > 0;
    }
  }
}
