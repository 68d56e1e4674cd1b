/**
 * The worker-slot bookkeeping of webapp/src/App.jsx (lines 84-101): a fixed
 * array of busy flags, one per worker, and the map of pending task
 * callbacks, each remembering the worker that runs it. A dispatch takes the
 * lowest free slot, a reply frees its task's slot, and an instance fault on
 * one worker rejects exactly the callbacks that worker owns.
 */
module Workers {
  import Scheduler

  /** `task-${frame}-${n}`: the frame and the value of the task counter at dispatch. */
  datatype TaskId = TaskId(frame: int, serial: nat)

  /** How `dispatchToWorker` ends: it throws, or hands the task to a worker. */
  datatype Dispatched =
    | GlobalCancel
    | NoWorker(frame: int)
    | PostFailed(id: TaskId, slot: nat)
    | Posted(id: TaskId, slot: nat)

  /**
   * Every pending task runs on an existing busy worker, no two pending tasks
   * share a worker, and every task id was handed out before.
   */
  ghost predicate Consistent(busy: seq<bool>, callbacks: map<TaskId, nat>, next: nat) {
    && (forall id :: id in callbacks ==> callbacks[id] < |busy| && busy[callbacks[id]])
    && (forall a, b :: a in callbacks && b in callbacks && callbacks[a] == callbacks[b] ==> a == b)
    && (forall id :: id in callbacks ==> id.serial < next)
  }

  /** Claiming a free worker for a task with the next id keeps the bookkeeping consistent. */
  lemma ClaimKeepsConsistent(busy: seq<bool>, callbacks: map<TaskId, nat>, next: nat, w: nat, frame: int)
    requires Consistent(busy, callbacks, next) && w < |busy| && !busy[w]
    ensures TaskId(frame, next) !in callbacks
    ensures Consistent(busy[w := true], callbacks[TaskId(frame, next) := w], next + 1)
  {
  }

  /** Handing out more ids keeps the bookkeeping consistent. */
  lemma LaterCounterKeepsConsistent(busy: seq<bool>, callbacks: map<TaskId, nat>, next: nat, later: nat)
    requires Consistent(busy, callbacks, next) && next <= later
    ensures Consistent(busy, callbacks, later)
  {
  }

  class WorkerPool {
    /** `workerBusyStates`: one flag per worker. */
    var busy: array<bool>
    /** `workerTaskCallbacks`: the pending tasks and the index of the worker each one runs on. */
    var callbacks: map<TaskId, nat>
    /** `nextTaskId`. */
    var nextTaskId: nat

    /** The pool's bookkeeping is consistent and there is one flag per worker. */
    ghost predicate Valid()
      reads this, busy
    {
      busy.Length == Scheduler.NUM_WORKERS && Consistent(busy[..], callbacks, nextTaskId)
    }

    /** The pool as the mount effect leaves it: every worker free, nothing pending. */
    constructor ()
      ensures Valid() && fresh(busy)
      ensures busy[..] == [false, false, false] && callbacks == map[] && nextTaskId == 0
    {
      busy := new bool[Scheduler.NUM_WORKERS](_ => false);
      callbacks := map[];
      nextTaskId := 0;
    }

    /** `workerBusyStates.findIndex(busy => !busy)`: the lowest free slot, or -1 when all are busy. */
    method FirstFree() returns (w: int)
      ensures -1 <= w < busy.Length
      ensures w == -1 <==> forall j :: 0 <= j < busy.Length ==> busy[j]
      ensures w >= 0 ==> !busy[w] && forall j :: 0 <= j < w ==> busy[j]
    {
      w := 0;
      while w < busy.Length
        invariant 0 <= w <= busy.Length
        invariant forall j :: 0 <= j < w ==> busy[j]
      {
        if !busy[w] {
          return;
        }
        w := w + 1;
      }
      w := -1;
    }

    /**
     * `dispatchToWorker`: refused once the session is cancelled; otherwise the
     * lowest free worker is marked busy and gets a fresh task id and a
     * callback. When posting the message fails, the slot is freed and the
     * callback deleted again, so only the task counter has moved.
     */
    method Dispatch(frame: int, cancelled: bool, postFails: bool) returns (r: Dispatched)
      requires Valid()
      modifies this, busy
      ensures Valid()
      ensures cancelled ==> r == GlobalCancel && unchanged(this) && unchanged(busy)
      ensures !cancelled && (forall j :: 0 <= j < busy.Length ==> old(busy[j])) ==>
        r == NoWorker(frame) && unchanged(this) && unchanged(busy)
      ensures r.PostFailed? || r.Posted? ==>
        && !cancelled
        && r.id == TaskId(frame, old(nextTaskId))
        && nextTaskId == old(nextTaskId) + 1
        && r.slot < busy.Length && !old(busy[r.slot])
        && (forall j :: 0 <= j < r.slot ==> old(busy[j]))
      ensures r.PostFailed? ==> postFails && callbacks == old(callbacks) && busy[..] == old(busy[..])
      ensures r.Posted? ==>
        && !postFails
        && r.id !in old(callbacks)
        && callbacks == old(callbacks)[r.id := r.slot]
        && busy[..] == old(busy[..])[r.slot := true]
      ensures !cancelled && (exists j :: 0 <= j < busy.Length && !old(busy[j])) ==> r.PostFailed? || r.Posted?
      ensures busy == old(busy)
    {
      if cancelled {
        return GlobalCancel;
      }
      var workerIndex := FirstFree();
      if workerIndex == -1 {
        return NoWorker(frame);
      }
      r := Claim(workerIndex, frame, postFails);
    }

    /**
     * Marks free worker `w` busy, takes the next task id and registers its
     * callback; when posting fails, the slot is freed and the callback
     * deleted again.
     */
    method Claim(w: int, frame: int, postFails: bool) returns (r: Dispatched)
      requires Valid() && 0 <= w < busy.Length && !busy[w]
      modifies this, busy
      ensures Valid() && busy == old(busy)
      ensures r == if postFails then PostFailed(TaskId(frame, old(nextTaskId)), w) else Posted(TaskId(frame, old(nextTaskId)), w)
      ensures nextTaskId == old(nextTaskId) + 1
      ensures postFails ==> callbacks == old(callbacks) && busy[..] == old(busy[..])
      ensures !postFails ==>
        && r.id !in old(callbacks)
        && callbacks == old(callbacks)[r.id := w]
        && busy[..] == old(busy[..])[w := true]
    {
      ghost var b := busy[..];
      ghost var cb := callbacks;
      ghost var next := nextTaskId;
      ClaimKeepsConsistent(b, cb, next, w, frame);
      busy[w] := true;
      var taskId := TaskId(frame, nextTaskId);
      nextTaskId := nextTaskId + 1;
      callbacks := callbacks[taskId := w];
      assert busy[..] == b[w := true];
      if postFails {
        busy[w] := false;
        callbacks := callbacks - {taskId};
        assert busy[..] == b;
        assert callbacks == cb;
        LaterCounterKeepsConsistent(b, cb, next, nextTaskId);
        r := PostFailed(taskId, w);
      } else {
        r := Posted(taskId, w);
      }
    }

    /**
     * A worker's reply for task `id`: a known task is settled, its callback
     * deleted and its worker freed; an unknown id changes nothing. Returns
     * the worker the task ran on.
     */
    method OnMessage(id: TaskId) returns (slot: int)
      requires Valid()
      modifies this, busy
      ensures Valid()
      ensures id !in old(callbacks) ==> slot == -1 && unchanged(this) && unchanged(busy)
      ensures id in old(callbacks) ==>
        && slot == old(callbacks[id])
        && callbacks == old(callbacks) - {id}
        && busy[..] == old(busy[..])[slot := false]
      ensures nextTaskId == old(nextTaskId) && busy == old(busy)
    {
      if id !in callbacks {
        return -1;
      }
      slot := callbacks[id];
      callbacks := callbacks - {id};
      busy[slot] := false;
    }

    /**
     * An instance error on worker `i`: slot `i` is freed and exactly the
     * callbacks owned by worker `i` are rejected and removed; every other
     * slot and callback stays as it was.
     */
    method OnError(i: int) returns (rejected: set<TaskId>)
      requires Valid()
      modifies this, busy
      ensures Valid()
      ensures rejected == set id | id in old(callbacks) && old(callbacks[id]) == i
      ensures callbacks == map id | id in old(callbacks) && old(callbacks[id]) != i :: old(callbacks[id])
      ensures 0 <= i < busy.Length ==> busy[..] == old(busy[..])[i := false]
      ensures !(0 <= i < busy.Length) ==> busy[..] == old(busy[..])
      ensures nextTaskId == old(nextTaskId) && busy == old(busy)
    {
      if 0 <= i < busy.Length {
        busy[i] := false;
      }
      rejected := set id | id in callbacks && callbacks[id] == i;
      callbacks := map id | id in callbacks && callbacks[id] != i :: callbacks[id];
    }

    /**
     * Rejecting every pending callback and clearing the map: on unmount, on
     * the reset of an analysis session and on a new file the busy flags are
     * freed too (`freeSlots`); when the video source changes they are left as
     * they are.
     */
    method RejectAll(freeSlots: bool) returns (rejected: set<TaskId>)
      requires Valid()
      modifies this, busy
      ensures Valid()
      ensures rejected == old(callbacks).Keys && callbacks == map[]
      ensures freeSlots ==> forall j :: 0 <= j < busy.Length ==> !busy[j]
      ensures !freeSlots ==> busy[..] == old(busy[..])
      ensures nextTaskId == old(nextTaskId) && busy == old(busy)
    {
      rejected := callbacks.Keys;
      callbacks := map[];
      if freeSlots {
        var j := 0;
        while j < busy.Length
          invariant 0 <= j <= busy.Length
          invariant forall k :: 0 <= k < j ==> !busy[k]
          modifies busy
        {
          busy[j] := false;
          j := j + 1;
        }
      }
    }
  }

  /**
   * The slot count only ever sees distinct pending tasks: with every worker
   * busy there can be at most as many pending callbacks as workers.
   */
  lemma PendingAtMostWorkers(callbacks: map<TaskId, nat>, n: nat)
    requires forall id :: id in callbacks ==> callbacks[id] < n
    requires forall a, b :: a in callbacks && b in callbacks && callbacks[a] == callbacks[b] ==> a == b
    ensures |callbacks| <= n
  {
    var slots := set id | id in callbacks :: callbacks[id];
    InjectiveImage(callbacks);
    SubsetCard(slots, n);
  }

  lemma {:induction false} InjectiveImage(callbacks: map<TaskId, nat>)
    requires forall a, b :: a in callbacks && b in callbacks && callbacks[a] == callbacks[b] ==> a == b
    ensures |set id | id in callbacks :: callbacks[id]| == |callbacks|
  {
    if callbacks != map[] {
      var id :| id in callbacks;
      var rest := callbacks - {id};
      InjectiveImage(rest);
      var s := set k | k in callbacks :: callbacks[k];
      var t := set k | k in rest :: rest[k];
      forall x | x in s ensures x in t + {callbacks[id]} {
        var k :| k in callbacks && callbacks[k] == x;
        if k != id { assert k in rest && rest[k] == x; }
      }
      forall x | x in t ensures x in s {
        var k :| k in rest && rest[k] == x;
        assert k in callbacks && callbacks[k] == x;
      }
      assert s == t + {callbacks[id]};
      assert callbacks[id] !in t;
      assert |rest| == |callbacks| - 1;
    }
  }

  lemma {:induction false} SubsetCard(s: set<nat>, n: nat)
    requires forall j :: j in s ==> j < n
    ensures |s| <= n
  {
    if n > 0 {
      SubsetCard(s - {n - 1}, n - 1);
    }
  }
}
