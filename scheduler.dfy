/**
 * One tick of the analysis scheduler as a function: the `while` loop of
 * `scheduleNextAnalysis` (webapp/src/App.jsx, lines 224-226) that pops the
 * priority queue first, otherwise sorts the recursive queue and splits its
 * first segment, and launches analyses while fewer than `NUM_WORKERS` run.
 */
module Scheduler {
  import opened Common
  import opened Segments
  import opened ScoreStore

  /** Capacity of the worker pool, and bound on concurrently running analyses. */
  const NUM_WORKERS: int := 3

  /** An analysis started by the tick: `analyzeSingleFrame(frame, isPriority)`. */
  datatype Launch = Launch(frame: int, isPriority: bool)

  /** What one pass of the loop did. */
  datatype Pass =
    | PriorityPop(frame: int, launched: bool)
    | Split(segment: Segment, mid: int, launched: bool)
    | Discard(segment: Segment)

  /** The controller fields the loop reads and writes. */
  datatype Queues = Queues(priority: seq<int>, recursive: seq<Segment>, active: int)

  /** There is work the loop may take: priority work, or recursive work when not paused. */
  predicate HasWork(q: Queues, paused: bool) {
    q.priority != [] || (!paused && q.recursive != [])
  }

  /** The loop condition. */
  predicate Continues(q: Queues, paused: bool) {
    q.active < NUM_WORKERS && HasWork(q, paused)
  }

  /** Decreases on every pass: a split removes one frame and adds at most one segment. */
  function Measure(q: Queues): nat {
    |q.priority| + 2 * Sizes(q.recursive) + |q.recursive|
  }

  /** A pass that pops the head of the priority queue. */
  function PopPriority(q: Queues, scores: map<int, FrameScore>): (Queues, Pass)
    requires q.priority != []
  {
    var f := q.priority[0];
    var go := f != 0 && NeedsAnalysis(scores, f);
    (Queues(q.priority[1..], q.recursive, if go then q.active + 1 else q.active), PriorityPop(f, go))
  }

  /**
   * A pass that sorts the recursive queue, shifts its first segment and, when
   * the segment is non-empty with a non-zero midpoint, takes the midpoint and
   * pushes the halves.
   */
  function SplitFirst(q: Queues, scores: map<int, FrameScore>): (r: (Queues, Pass))
    requires q.recursive != []
    ensures r.0.priority == q.priority
    ensures 2 * Sizes(r.0.recursive) + |r.0.recursive| < 2 * Sizes(q.recursive) + |q.recursive|
  {
    var sorted := Sort(q.recursive);
    SortIsOrderedPermutation(q.recursive);
    CoverSort(q.recursive, 0);
    var seg := sorted[0];
    var rest := sorted[1..];
    assert sorted == [seg] + rest;
    CoverAppend([seg], rest, 0);
    if seg.startFrame <= seg.endFrame && Mid(seg) != 0 then
      var mid := Mid(seg);
      var go := NeedsAnalysis(scores, mid);
      ChildrenPartition(seg, 0);
      CoverAppend(rest, Children(seg), 0);
      (Queues(q.priority, rest + Children(seg), if go then q.active + 1 else q.active), Split(seg, mid, go))
    else
      (Queues(q.priority, rest, q.active), Discard(seg))
  }

  /** One pass of the loop body: priority work first. */
  function Step(q: Queues, paused: bool, scores: map<int, FrameScore>): (r: (Queues, Pass))
    requires Continues(q, paused)
    ensures Measure(r.0) < Measure(q)
  {
    if q.priority != [] then PopPriority(q, scores) else SplitFirst(q, scores)
  }

  /** The whole loop: passes until no worker is free or no work is left. */
  function Drain(q: Queues, paused: bool, scores: map<int, FrameScore>): (Queues, seq<Pass>)
    decreases Measure(q)
  {
    if !Continues(q, paused) then (q, [])
    else
      var (q1, p) := Step(q, paused, scores);
      var (q2, ps) := Drain(q1, paused, scores);
      (q2, [p] + ps)
  }

  /** While the loop continues, the whole loop is one pass followed by the loop from the queues that pass leaves. */
  lemma DrainUnfold(q: Queues, paused: bool, scores: map<int, FrameScore>)
    requires Continues(q, paused)
    ensures Drain(q, paused, scores).0 == Drain(Step(q, paused, scores).0, paused, scores).0
    ensures Drain(q, paused, scores).1 == [Step(q, paused, scores).1] + Drain(Step(q, paused, scores).0, paused, scores).1
  {
  }

  lemma PassesAssociate(done: seq<Pass>, p: Pass, rest: seq<Pass>)
    ensures done + ([p] + rest) == (done + [p]) + rest
  {
  }

  /** The analyses a sequence of passes started, in order. */
  function Launches(ps: seq<Pass>): seq<Launch> {
    if ps == [] then []
    else
      (match ps[0]
       case PriorityPop(f, go) => if go then [Launch(f, true)] else []
       case Split(_, m, go) => if go then [Launch(m, false)] else []
       case Discard(_) => []) + Launches(ps[1..])
  }

  /** The midpoints taken by a sequence of passes, dispatched or skipped. */
  function Mids(ps: seq<Pass>): multiset<int> {
    if ps == [] then multiset{}
    else (if ps[0].Split? then multiset{ps[0].mid} else multiset{}) + Mids(ps[1..])
  }

  /** The frames popped from the priority queue that are started: non-zero and not yet scored. */
  function Pending(s: seq<int>, scores: map<int, FrameScore>): seq<int> {
    if s == [] then []
    else (if s[0] != 0 && NeedsAnalysis(scores, s[0]) then [s[0]] else []) + Pending(s[1..], scores)
  }

  function PriorityFrames(ls: seq<Launch>): seq<int> {
    if ls == [] then [] else (if ls[0].isPriority then [ls[0].frame] else []) + PriorityFrames(ls[1..])
  }

  lemma LaunchesCons(p: Pass, ps: seq<Pass>)
    ensures Launches([p] + ps) == Launches([p]) + Launches(ps)
    ensures Mids([p] + ps) == Mids([p]) + Mids(ps)
  {
    assert ([p] + ps)[1..] == ps;
    assert [p][1..] == [];
  }

  /**
   * Concurrency bound: the loop starts one analysis per launch, only while
   * fewer than `NUM_WORKERS` run, and stops when no worker is free or no work
   * is left; so the count never passes `NUM_WORKERS`.
   */
  lemma {:induction false} DrainRespectsCapacity(q: Queues, paused: bool, scores: map<int, FrameScore>)
    requires q.active <= NUM_WORKERS
    ensures var (r, ps) := Drain(q, paused, scores);
      && r.active == q.active + |Launches(ps)|
      && r.active <= NUM_WORKERS
      && !Continues(r, paused)
    decreases Measure(q)
  {
    if Continues(q, paused) {
      var (q1, p) := Step(q, paused, scores);
      DrainRespectsCapacity(q1, paused, scores);
      LaunchesCons(p, Drain(q1, paused, scores).1);
    }
  }

  /**
   * `r` is what remains of queue `s` after popping a prefix of it, and
   * `started` lists the frames of that prefix that were started.
   */
  predicate ConsumedPrefix(s: seq<int>, r: seq<int>, started: seq<int>, scores: map<int, FrameScore>) {
    && |r| <= |s|
    && r == s[|s| - |r|..]
    && started == Pending(s[..|s| - |r|], scores)
  }

  lemma {:induction false} PendingAppend(a: seq<int>, b: seq<int>, scores: map<int, FrameScore>)
    ensures Pending(a + b, scores) == Pending(a, scores) + Pending(b, scores)
  {
    if a == [] {
      assert a + b == b;
    } else {
      var h := if a[0] != 0 && NeedsAnalysis(scores, a[0]) then [a[0]] else [];
      PendingAppend(a[1..], b, scores);
      assert (a + b)[0] == a[0] && (a + b)[1..] == a[1..] + b;
      assert Pending(a + b, scores) == h + Pending(a[1..] + b, scores);
      assert Pending(a, scores) == h + Pending(a[1..], scores);
      SeqAssociate(h, Pending(a[1..], scores), Pending(b, scores));
    }
  }

  lemma ConsumedCompose(s: seq<int>, m: seq<int>, r: seq<int>, a: seq<int>, b: seq<int>, scores: map<int, FrameScore>)
    requires ConsumedPrefix(s, m, a, scores) && ConsumedPrefix(m, r, b, scores)
    ensures ConsumedPrefix(s, r, a + b, scores)
  {
    var k := |s| - |m|;
    var k1 := |m| - |r|;
    assert s[..k + k1] == s[..k] + m[..k1];
    PendingAppend(s[..k], m[..k1], scores);
    assert r == s[k + k1..];
  }

  /** A priority pass pops the head, starting it when it still needs analysis. */
  lemma PopConsumesHead(q: Queues, scores: map<int, FrameScore>)
    requires q.priority != []
    ensures ConsumedPrefix(q.priority, PopPriority(q, scores).0.priority, PriorityFrames(Launches([PopPriority(q, scores).1])), scores)
  {
    var (q1, p) := PopPriority(q, scores);
    var f := q.priority[0];
    assert [p][1..] == [];
    assert q.priority[..1] == [f];
    assert [f][1..] == [];
    if p.launched {
      assert Launches([p]) == [Launch(f, true)];
      assert [Launch(f, true)][1..] == [];
    } else {
      assert Launches([p]) == [];
    }
  }

  /** A split pass leaves the priority queue alone and starts no priority analysis. */
  lemma SplitConsumesNothing(q: Queues, scores: map<int, FrameScore>)
    requires q.recursive != []
    ensures ConsumedPrefix(q.priority, SplitFirst(q, scores).0.priority, PriorityFrames(Launches([SplitFirst(q, scores).1])), scores)
  {
    var (q1, p) := SplitFirst(q, scores);
    assert [p][1..] == [];
    if p.Split? && p.launched {
      assert Launches([p]) == [Launch(p.mid, false)];
      assert [Launch(p.mid, false)][1..] == [];
    } else {
      assert Launches([p]) == [];
    }
    assert q.priority[..0] == [];
  }

  /** One pass pops at most the head of the priority queue, starting it when it still needs analysis. */
  lemma StepConsumesPriority(q: Queues, paused: bool, scores: map<int, FrameScore>)
    requires Continues(q, paused)
    ensures ConsumedPrefix(q.priority, Step(q, paused, scores).0.priority, PriorityFrames(Launches([Step(q, paused, scores).1])), scores)
  {
    if q.priority != [] {
      PopConsumesHead(q, scores);
    } else {
      SplitConsumesNothing(q, scores);
    }
  }

  /**
   * The priority queue is consumed from its head, and the frames started from
   * it are exactly the non-zero, not-yet-scored ones among those popped, in
   * queue order.
   */
  lemma {:induction false} DrainConsumesPriority(q: Queues, paused: bool, scores: map<int, FrameScore>)
    ensures ConsumedPrefix(q.priority, Drain(q, paused, scores).0.priority, PriorityFrames(Launches(Drain(q, paused, scores).1)), scores)
    decreases Measure(q)
  {
    if Continues(q, paused) {
      var (q1, p) := Step(q, paused, scores);
      StepConsumesPriority(q, paused, scores);
      DrainConsumesPriority(q1, paused, scores);
      var (r, ps1) := Drain(q1, paused, scores);
      LaunchesCons(p, ps1);
      PriorityFramesAppend(Launches([p]), Launches(ps1));
      ConsumedCompose(q.priority, q1.priority, r.priority, PriorityFrames(Launches([p])), PriorityFrames(Launches(ps1)), scores);
    } else {
      assert q.priority[..0] == [];
    }
  }

  /** Every priority launch precedes every recursive one. */
  predicate PriorityLeads(ls: seq<Launch>) {
    forall i, j :: 0 <= i < j < |ls| && ls[j].isPriority ==> ls[i].isPriority
  }

  predicate AllPriority(ls: seq<Launch>) {
    forall i :: 0 <= i < |ls| ==> ls[i].isPriority
  }

  predicate NoPriority(ls: seq<Launch>) {
    forall i :: 0 <= i < |ls| ==> !ls[i].isPriority
  }

  lemma LeadsCons(h: seq<Launch>, t: seq<Launch>)
    requires |h| <= 1 && AllPriority(h) && PriorityLeads(t)
    ensures PriorityLeads(h + t)
    ensures AllPriority(h + t) == AllPriority(t)
  {
    var ls := h + t;
    forall i, j | 0 <= i < j < |ls| && ls[j].isPriority ensures ls[i].isPriority {
      if i >= |h| { assert ls[i] == t[i - |h|] && ls[j] == t[j - |h|]; }
    }
    if AllPriority(t) {
      forall i | 0 <= i < |ls| ensures ls[i].isPriority {
        if i >= |h| { assert ls[i] == t[i - |h|]; }
      }
    }
    if AllPriority(ls) {
      forall i | 0 <= i < |t| ensures t[i].isPriority { assert t[i] == ls[i + |h|]; }
    }
  }

  lemma NoPriorityCons(h: seq<Launch>, t: seq<Launch>)
    requires NoPriority(h) && NoPriority(t)
    ensures NoPriority(h + t)
  {
    var ls := h + t;
    forall i | 0 <= i < |ls| ensures !ls[i].isPriority {
      if i >= |h| { assert ls[i] == t[i - |h|]; }
    }
  }

  lemma AllPriorityCons(h: seq<Launch>, t: seq<Launch>)
    requires AllPriority(h) && AllPriority(t)
    ensures AllPriority(h + t)
  {
    var ls := h + t;
    forall i | 0 <= i < |ls| ensures ls[i].isPriority {
      if i >= |h| { assert ls[i] == t[i - |h|]; }
    }
  }

  /** One pass starts at most one analysis: a priority one while the priority queue is non-empty, a recursive one after. */
  lemma StepLaunchKind(q: Queues, paused: bool, scores: map<int, FrameScore>)
    requires Continues(q, paused)
    ensures |Launches([Step(q, paused, scores).1])| <= 1
    ensures q.priority != [] ==> AllPriority(Launches([Step(q, paused, scores).1]))
    ensures q.priority == [] ==> NoPriority(Launches([Step(q, paused, scores).1])) && Step(q, paused, scores).0.priority == []
  {
    var p := Step(q, paused, scores).1;
    assert [p][1..] == [];
    if q.priority != [] {
      assert Launches([p]) == [] || Launches([p]) == [Launch(p.frame, true)];
    } else {
      assert Launches([p]) == [] || Launches([p]) == [Launch(p.mid, false)];
    }
  }

  /**
   * Every priority launch precedes every recursive one, and a recursive
   * analysis is started only once the priority queue has been emptied.
   */
  lemma {:induction false} DrainPriorityBeforeRecursive(q: Queues, paused: bool, scores: map<int, FrameScore>)
    ensures PriorityLeads(Launches(Drain(q, paused, scores).1))
    ensures !AllPriority(Launches(Drain(q, paused, scores).1)) ==> Drain(q, paused, scores).0.priority == []
    decreases Measure(q)
  {
    if Continues(q, paused) {
      var (q1, p) := Step(q, paused, scores);
      DrainUnfold(q, paused, scores);
      var ps1 := Drain(q1, paused, scores).1;
      LaunchesCons(p, ps1);
      StepLaunchKind(q, paused, scores);
      if q.priority != [] {
        DrainPriorityBeforeRecursive(q1, paused, scores);
        LeadsCons(Launches([p]), Launches(ps1));
      } else {
        NoPriorityAfterEmpty(q1, paused, scores);
        NoPriorityCons(Launches([p]), Launches(ps1));
      }
    }
  }

  /** While paused, the recursive queue is untouched and only priority frames are started. */
  lemma {:induction false} DrainPausedKeepsRecursive(q: Queues, scores: map<int, FrameScore>)
    ensures Drain(q, true, scores).0.recursive == q.recursive
    ensures AllPriority(Launches(Drain(q, true, scores).1))
    decreases Measure(q)
  {
    if Continues(q, true) {
      var (q1, p) := Step(q, true, scores);
      DrainPausedKeepsRecursive(q1, scores);
      var ps1 := Drain(q1, true, scores).1;
      LaunchesCons(p, ps1);
      assert Launches([p]) == [] || Launches([p]) == [Launch(p.frame, true)];
      AllPriorityCons(Launches([p]), Launches(ps1));
    }
  }

  lemma {:induction false} PriorityFramesAppend(a: seq<Launch>, b: seq<Launch>)
    ensures PriorityFrames(a + b) == PriorityFrames(a) + PriorityFrames(b)
  {
    if a == [] {
      assert a + b == b;
    } else {
      var h := if a[0].isPriority then [a[0].frame] else [];
      PriorityFramesAppend(a[1..], b);
      assert (a + b)[0] == a[0] && (a + b)[1..] == a[1..] + b;
      assert PriorityFrames(a + b) == h + PriorityFrames(a[1..] + b);
      assert PriorityFrames(a) == h + PriorityFrames(a[1..]);
      SeqAssociate(h, PriorityFrames(a[1..]), PriorityFrames(b));
    }
  }

  lemma {:induction false} NoPriorityFramesWhenNone(ls: seq<Launch>)
    requires forall i :: 0 <= i < |ls| ==> !ls[i].isPriority
    ensures PriorityFrames(ls) == []
  {
    if ls != [] { NoPriorityFramesWhenNone(ls[1..]); }
  }

  /** With the priority queue empty, the loop starts only recursive analyses. */
  lemma {:induction false} NoPriorityAfterEmpty(q: Queues, paused: bool, scores: map<int, FrameScore>)
    requires q.priority == []
    ensures var (r, ps) := Drain(q, paused, scores);
      r.priority == [] && NoPriority(Launches(ps))
    decreases Measure(q)
  {
    if Continues(q, paused) {
      var (q1, p) := Step(q, paused, scores);
      NoPriorityAfterEmpty(q1, paused, scores);
      LaunchesCons(p, Drain(q1, paused, scores).1);
      assert Launches([p]) == [] || Launches([p]) == [Launch(p.mid, false)];
      NoPriorityCons(Launches([p]), Launches(Drain(q1, paused, scores).1));
    }
  }

  /**
   * One pass takes the first segment of least (depth, span) out of the
   * recursive queue; its midpoint leaves the queue and the rest of its frames
   * go back as its two halves, so coverage drops by one at the midpoint only.
   */
  lemma StepCoverage(q: Queues, paused: bool, scores: map<int, FrameScore>, n: int, f: int)
    requires Continues(q, paused) && AllWithin(q.recursive, n)
    ensures AllWithin(Step(q, paused, scores).0.recursive, n)
    ensures Cover(q.recursive, f) == Cover(Step(q, paused, scores).0.recursive, f) + Mids([Step(q, paused, scores).1])[f]
  {
    var (q1, p) := Step(q, paused, scores);
    assert [p][1..] == [];
    if q.priority == [] {
      var sorted := Sort(q.recursive);
      SortIsOrderedPermutation(q.recursive);
      CoverSort(q.recursive, f);
      var seg := sorted[0];
      var rest := sorted[1..];
      assert seg in multiset(q.recursive);
      forall s | s in rest ensures 1 <= s.startFrame <= s.endFrame <= n {
        assert s in multiset(sorted);
      }
      assert Mid(seg) >= 1;
      ChildrenPartition(seg, f);
      CoverAppend(rest, Children(seg), f);
      assert p == Split(seg, Mid(seg), p.launched);
    }
  }

  /**
   * Over the whole loop every frame keeps its count: the segments that still
   * cover it plus the midpoints taken equal the segments that covered it at
   * the start; and the recursive queue stays inside `[1, n]`.
   */
  lemma {:induction false} DrainCoverage(q: Queues, paused: bool, scores: map<int, FrameScore>, n: int, f: int)
    requires AllWithin(q.recursive, n)
    ensures AllWithin(Drain(q, paused, scores).0.recursive, n)
    ensures Cover(q.recursive, f) == Cover(Drain(q, paused, scores).0.recursive, f) + Mids(Drain(q, paused, scores).1)[f]
    decreases Measure(q)
  {
    if Continues(q, paused) {
      var (q1, p) := Step(q, paused, scores);
      StepCoverage(q, paused, scores, n, f);
      DrainCoverage(q1, paused, scores, n, f);
      LaunchesCons(p, Drain(q1, paused, scores).1);
    }
  }

  /** Every analysis the loop starts from the recursive queue is at a midpoint it took. */
  lemma {:induction false} RecursiveLaunchesAreMids(ps: seq<Pass>, i: int)
    requires 0 <= i < |Launches(ps)| && !Launches(ps)[i].isPriority
    ensures Launches(ps)[i].frame in Mids(ps)
  {
    var h := Launches([ps[0]]);
    assert ps == [ps[0]] + ps[1..];
    LaunchesCons(ps[0], ps[1..]);
    assert [ps[0]][1..] == [];
    if i < |h| {
      assert ps[0].Split?;
    } else {
      RecursiveLaunchesAreMids(ps[1..], i - |h|);
    }
  }

  lemma {:induction false} LaunchesAppend(a: seq<Pass>, b: seq<Pass>)
    ensures Launches(a + b) == Launches(a) + Launches(b)
  {
    if a == [] {
      assert a + b == b;
    } else {
      var h := Launches([a[0]]);
      LaunchesAppend(a[1..], b);
      assert a + b == [a[0]] + (a[1..] + b);
      assert a == [a[0]] + a[1..];
      LaunchesCons(a[0], a[1..] + b);
      LaunchesCons(a[0], a[1..]);
      SeqAssociate(h, Launches(a[1..]), Launches(b));
    }
  }

  /**
   * What a pass decided, as the loop body decides it: a popped priority frame
   * is started exactly when it is non-zero and not scored without error; a
   * split takes the floored midpoint of its segment and starts it exactly
   * when it is not scored without error.
   */
  predicate PassFollowsStore(p: Pass, scores: map<int, FrameScore>) {
    && (p.PriorityPop? ==> p.launched == (p.frame != 0 && NeedsAnalysis(scores, p.frame)))
    && (p.Split? ==> p.mid == Mid(p.segment) && p.mid != 0 && p.launched == NeedsAnalysis(scores, p.mid))
  }

  /** Cache skipping and retry: every pass of the loop decides by the score store. */
  lemma {:induction false} DrainFollowsStore(q: Queues, paused: bool, scores: map<int, FrameScore>)
    ensures forall p :: p in Drain(q, paused, scores).1 ==> PassFollowsStore(p, scores)
    decreases Measure(q)
  {
    if Continues(q, paused) {
      var (q1, p) := Step(q, paused, scores);
      DrainFollowsStore(q1, paused, scores);
    }
  }

  /** Every frame a pass sequence starts is non-zero and still needed analysis; none other is started. */
  lemma {:induction false} LaunchesNeedAnalysis(ps: seq<Pass>, scores: map<int, FrameScore>)
    requires forall p :: p in ps ==> PassFollowsStore(p, scores)
    ensures forall l :: l in Launches(ps) ==> l.frame != 0 && NeedsAnalysis(scores, l.frame)
  {
    if ps != [] {
      LaunchesNeedAnalysis(ps[1..], scores);
      assert ps == [ps[0]] + ps[1..];
      LaunchesCons(ps[0], ps[1..]);
      assert ps[0] in ps;
    }
  }
}
