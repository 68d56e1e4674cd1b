# Smart frame export: analysis controller and sharpness scorer

This project models the analysis core of the smart-frame-export web app in
Dafny and proves properties of that model. The app finds the sharpest frames
of a video in two ways. It explores the timeline by recursive bisection.
Around the frame the user focuses on, it analyses the nearby frames first.
Each sampled frame gets a sharpness score computed in a worker.

The model covers:

- **`Controller`**: the session record (`analysisTaskController`) as a class.
  It has the reset effect, its cleanup, the scheduler tick, the priority
  enqueue of a focus, the end of a user interaction, playback start, the start
  of a user seek and the completion of one frame analysis. Its invariant `Valid` says three things. At most
  `NUM_WORKERS` analyses are counted as running. The priority queue holds no
  frame twice. Every frame of `[1, totalFrames]` is either still covered by
  exactly one queued segment or has been taken as a midpoint exactly once.
  The store half of the invariant says results are keyed by their own frame,
  the global bounds enclose every successful score and the overall best
  dominates them. Keys may lie outside `[1, totalFrames]`: an analysis
  started before a reset to a shorter video still stores its frame.
- **`Scheduler`**: one tick's loop as a function (`Step`, `Drain`) with its
  properties. These are the concurrency bound, priority work first, the
  pause, coverage of the recursive bisection and skipping of cached frames.
- **`Segments`**: the recursive queue's segments and the stable sort by
  (depth, span). It also holds the split of a segment at its floored
  midpoint.
- **`Priority`**: the candidate list of a focus (centre, then distance 1, 2,
  … lower side first), its de-duplication and its merge in front of the old
  priority queue.
- **`ScoreStore`**: storing a success, a failure or nothing. It covers the
  widened global bounds and the replacement rule of the overall best.
- **`Focus`**: the focused window around the centre, its local best and its
  local normalisation.
- **`Workers`**: the worker slots and pending-callback bookkeeping. This is
  dispatch to the lowest free worker, a reply, a worker fault and the
  reject-all cleanups.
- **`Timeline`**: `timeToFrame`, `frameToTime` and the step-button clamp.
- **`Median`**, **`SharpnessSpec`**, **`Sharpness`**: the worker's scorer.
  It runs grayscale, a 3×3 median filter, Sobel gradients, the 5×5 local
  mean at strong edges and the sum of the normalised edge strengths. The
  imperative scorer is proved equal to a functional specification, and that
  specification's properties are proved as lemmas.

Grayscale values are kept as the integer sum `r + g + b`, three times the
source's average. The model therefore works with scaled quantities:

- the squared gradient is 9 times the source's;
- the edge test `sqrt(gx² + gy²) > 40` is the exact integer test
  `Mag2 > 14400`;
- the magnitude is `root(Mag2) / 3`;
- the local mean is `localSum / (3 · 25)`.

`Math.sqrt` is the parameter `root`. All of these are exact reals and
integers.

## Model

| member | source | states |
|---|---|---|
| Common.Clamp | webapp/src/App.jsx:376 | The step target `max(1, min(v, total))` lies in `[lo, hi]`. It is `v` when `v` is in range and the nearer end otherwise. |
| Timeline.TimeToFrame | webapp/src/App.jsx:106-109 | 0 while the duration, rate or frame count is 0. Otherwise `floor(time·rate) + 1` when that is in `[1, totalFrames]`, 1 when it falls below and `totalFrames` when it passes the end. |
| Timeline.FrameToTime | webapp/src/App.jsx:110-114 | A seek time is never negative. It is 0 without a rate or for a frame ≤ 0. |
| Timeline.SeekTimeInsideFrame | webapp/src/App.jsx:110-114 | The time of frame `f` times the rate is exactly `(f − 1) + 0.01`, one hundredth of the way into the frame. |
| Timeline.FrameTimeRoundTrip | webapp/src/App.jsx:106-114 | Round trip: `timeToFrame(frameToTime(f)) == f` for every frame `f` in `[1, totalFrames]` when the rate is positive. |
| Timeline.StepFrame | webapp/src/App.jsx:376 | No frames ⇔ `NoFrames`. A seek goes to `Clamp(current + direction, 1, totalFrames)`, a frame in range that differs from the current one, at that frame's time. It moves in the pressed direction and by no more than the step. `Stay` ⇔ the clamp lands on the current frame. |
| ScoreStore.Lower | webapp/src/App.jsx:178 | The new minimum is at most both the old bound and the score, and it is one of the two. |
| ScoreStore.Raise | webapp/src/App.jsx:179 | The new maximum is at least both the old bound and the score, and it is one of the two. |
| ScoreStore.Record | webapp/src/App.jsx:176-204 | A success sets exactly the frame's entry, without error, so the frame no longer needs analysis. The bounds become `Math.min`/`Math.max` of the old bound and the score. The overall best becomes the new entry exactly when the replacement rule fires and is kept otherwise. A failure sets exactly the frame's entry to score 0 with the error flag and changes nothing else. An abandoned analysis changes nothing. |
| ScoreStore.RecordKeepsInvariants | webapp/src/App.jsx:176-188 | After any outcome the bounds still enclose every successful score and the overall best still dominates them, even when a frame's earlier result is overwritten. |
| Segments.FirstMin | webapp/src/App.jsx:224 | The index of the first segment of least (depth, span). No segment sorts before it and every earlier one sorts after it. |
| Segments.Sort | webapp/src/App.jsx:224 | The comparator sort as a stable insertion sort. `SortIsOrderedPermutation`, `SortIsStable`, `SortHeadIsFirstMin` and `CoverSort` state what it yields. |
| Segments.Mid | webapp/src/App.jsx:224 | The floored midpoint of a segment. `ChildrenPartition` states that it and the halves partition the segment. |
| Segments.SortIsOrderedPermutation | webapp/src/App.jsx:224 | The recursive queue's sort yields a permutation of the queue ordered by (depth, span). |
| Segments.SortHeadIsFirstMin | webapp/src/App.jsx:224 | The segment shifted after the sort is the first one of least (depth, span) in the unsorted queue. |
| Segments.SortIsStable | webapp/src/App.jsx:224 | For every key, the segments having it keep their relative order through the sort. |
| Segments.CoverSort | webapp/src/App.jsx:224 | Sorting changes neither how many segments cover any frame nor the total size. |
| Segments.Children | webapp/src/App.jsx:225-226 | At most two halves, one level deeper, each non-empty and inside the parent. When both exist the lower comes first and they are disjoint. |
| Segments.ChildrenPartition | webapp/src/App.jsx:225-226 | The midpoint and the halves partition the parent. Every other frame of the parent lies in exactly one half, and the halves hold one frame fewer. |
| Scheduler.SplitFirst | webapp/src/App.jsx:224-226 | A recursive pass leaves the priority queue alone and strictly decreases `2·size + count` of the recursive queue, so the loop terminates. |
| Scheduler.Step | webapp/src/App.jsx:224-226 | Every pass of the loop strictly decreases the termination measure. |
| Scheduler.PopPriority | webapp/src/App.jsx:224-225 | The priority branch as a value: shift the head and launch it when it is non-zero and needs analysis. Its effect is stated by `PopConsumesHead`, `StepConsumesPriority` and `DrainConsumesPriority`. |
| Scheduler.Drain | webapp/src/App.jsx:224-226 | The whole loop as a value: passes while a worker is free and work is left. Its properties are stated by the `Drain…` lemmas, and `RunPasses` is proved equal to it. |
| Scheduler.DrainRespectsCapacity | webapp/src/App.jsx:224-225 | The running count grows by exactly the number of launches and never passes `NUM_WORKERS`. The loop stops only when no worker is free or no work is left. |
| Scheduler.DrainConsumesPriority | webapp/src/App.jsx:224-225 | The priority queue is consumed from its head. The frames started from it are exactly the non-zero, not-yet-scored ones among those popped, in queue order. |
| Scheduler.DrainPriorityBeforeRecursive | webapp/src/App.jsx:224 | Every priority launch precedes every recursive one. A recursive launch happens only once the priority queue is empty. |
| Scheduler.DrainPausedKeepsRecursive | webapp/src/App.jsx:224 | While paused, the recursive queue is untouched and only priority frames are started. |
| Scheduler.NoPriorityAfterEmpty | webapp/src/App.jsx:224 | With an empty priority queue, the tick starts only recursive analyses and the queue stays empty. |
| Scheduler.DrainCoverage | webapp/src/App.jsx:224-226 | For every frame, the segments still covering it plus the midpoints taken equal the segments that covered it before the tick. The queue stays inside `[1, n]`. |
| Scheduler.RecursiveLaunchesAreMids | webapp/src/App.jsx:224-225 | Every recursive analysis started is at a midpoint taken by the loop. |
| Scheduler.DrainFollowsStore | webapp/src/App.jsx:225-226 | Every pass starts its frame exactly when it is non-zero and not scored without error. A split takes the floored midpoint. |
| Scheduler.LaunchesNeedAnalysis | webapp/src/App.jsx:225 | Every frame a tick starts is non-zero and still needs analysis. |
| Controller.DrainKeepsQueueInv | webapp/src/App.jsx:224-226 | A whole tick keeps the queue invariant, with the midpoints it took added to the explored frames. |
| Controller.ExhaustedMeansEveryFrameOnce | webapp/src/App.jsx:224-226 | Once the recursive queue is empty, every frame of `[1, total]` has been a midpoint exactly once, and no other frame has. |
| Controller.CachedResult | webapp/src/App.jsx:140-154 | A stored result is returned exactly when the frame does not need analysis. It is the stored entry and carries no error. |
| Controller.TickLaunchesMissCache | webapp/src/App.jsx:140 | An analysis started by the tick never returns a cached result, because the tick and the cache test use the same condition with nothing in between. |
| Controller.FrontKeepsQueueInv | webapp/src/App.jsx:347 | Moving distinct frames to the front of the priority queue keeps the queue invariant. |
| Controller.AnalysisController.constructor | webapp/src/App.jsx:32-39 | The initial record. Not cancelled, not paused, empty queues and store, bounds at `Infinity`/`-Infinity`, no running analysis, no frames, no best. The invariant holds. |
| Controller.AnalysisController.Reset | webapp/src/App.jsx:232-256 | For a loaded video of `total > 0` frames, a fresh session whose recursive queue is the single segment `[1, total]` at depth 0, with everything else reset. Without frames, the queues, the running count, the store with its bounds and best, the flags and the focus centre are all unchanged. The invariant holds. |
| Controller.AnalysisController.Teardown | webapp/src/App.jsx:257 | Cancels the session and zeroes the running count. The queues, the store with its bounds and best, the pause flag, the frame count and the focus centre are unchanged. |
| Controller.AnalysisController.EndInteraction | webapp/src/App.jsx:367 | The pause is lifted exactly when the priority queue is empty. The queues, the store, the cancel flag and the focus centre are unchanged. |
| Controller.AnalysisController.Resume | webapp/src/App.jsx:358 | Starting playback (the play button, and the video's `onPlay` at line 469) lifts the pause whatever the priority queue holds. The queues, the store, the cancel flag and the focus centre are unchanged. |
| Controller.AnalysisController.PauseForSeek | webapp/src/App.jsx:361 | The start of a user seek pauses the recursive work, unless the session is cancelled, when nothing changes. The queues, the store and the focus centre are unchanged. |
| Controller.AnalysisController.PushHalves | webapp/src/App.jsx:225-226 | Appends exactly the segment's non-empty halves, lower first. Nothing else changes. |
| Controller.AnalysisController.PopPriorityPass | webapp/src/App.jsx:224-225 | The priority branch of one pass changes the queues exactly as `PopPriority` specifies and starts exactly the launch that pass records. |
| Controller.AnalysisController.SplitFirstPass | webapp/src/App.jsx:224-226 | The recursive branch (in-place sort, shift, midpoint, halves, start) changes the queues exactly as `SplitFirst` specifies. |
| Controller.AnalysisController.RunPass | webapp/src/App.jsx:224-226 | One pass of the loop changes the queues exactly as `Step` specifies and records the same pass. The pause flag and the store are unchanged. |
| Controller.AnalysisController.RunPasses | webapp/src/App.jsx:224-226 | The loop leaves the queues as `Drain` specifies and returns exactly the analyses `Drain` starts. The pause flag and the store are unchanged. |
| Controller.AnalysisController.Tick | webapp/src/App.jsx:223-226 | A cancelled session or a user-held seek changes nothing. An interaction with no priority work pauses and starts nothing. Otherwise the pause is lifted unless the user is interacting, and the queues and launches are those of `Drain`. The explored frames grow by exactly the midpoints `Drain` takes. The store and the focus centre are unchanged and the invariant holds. |
| Controller.AnalysisController.Complete | webapp/src/App.jsx:135-218 | The running count drops by one and the outcome is recorded as `Record` specifies, whatever the current frame count. The range test of line 136 runs when the analysis starts, so a refused start arrives as `Abandoned`. The queues, flags and focus centre are unchanged and the invariant holds. |
| Controller.AnalysisController.TriggerPriority | webapp/src/App.jsx:321-350 | Without frames, without a centre or once cancelled, nothing changes and no tick is scheduled. Otherwise the centre is set, the recursive work is paused, and the queue becomes the candidates followed by the old entries not among them. A tick is scheduled exactly when there are candidates. The invariant holds. |
| Priority.RingFacts | webapp/src/App.jsx:330-344 | The frames tested at distance `i` are exactly those that need analysis and are in range on their own side (the lower frame `>= 1`, the upper frame `<= totalFrames`, the centre unchecked), lower side first. |
| Priority.Ring | webapp/src/App.jsx:330-344 | The frames the loop tests at distance `i`. `RingFacts` states which they are. |
| Priority.Candidates | webapp/src/App.jsx:329-344 | `newPT` after the loop. `CandidatesAreWanted` and `CandidatesNearestFirst` state which frames it holds and in what order. |
| Priority.Dedupe | webapp/src/App.jsx:346 | `[...new Set(newPT)]`, keeping first occurrences. `DedupeKeepsDistinct` states it is the identity on `newPT`. |
| Priority.CandidatesAreWanted | webapp/src/App.jsx:329-345 | A frame is queued if and only if it is within the radius, in range on its own side, and not scored without error. |
| Priority.CandidatesNearestFirst | webapp/src/App.jsx:329-345 | The candidate list is ordered by distance from the centre, lower frame first at equal distance, and has no duplicates. |
| Priority.CollectCandidates | webapp/src/App.jsx:329-345 | The loop that fills `newPT` yields exactly the specified candidate list for radius + 1 rings. |
| Priority.DedupeKeepsDistinct | webapp/src/App.jsx:346 | On a list without duplicates the set conversion changes nothing. |
| Priority.Without | webapp/src/App.jsx:347 | The filtered old queue holds exactly the old entries not among the new front, and is no longer than the old queue. When nothing is removed it is the old queue itself. |
| Priority.WithoutAppend | webapp/src/App.jsx:347 | Filtering a concatenation filters each part, so the kept entries stay in the old queue's order. |
| Priority.WithoutKeepsDistinct | webapp/src/App.jsx:347 | Filtering keeps a duplicate-free queue duplicate-free. |
| Priority.MergedQueue | webapp/src/App.jsx:347 | The merged queue starts with the new frames, holds every frame of either part and has no duplicates. |
| Priority.CandidatesExample | webapp/src/App.jsx:329-345 | Centre 7, radius 2, empty store of 20 frames queues `[7, 6, 8, 5, 9]`. |
| Focus.EntryOf | webapp/src/App.jsx:269-277 | A window entry carries its frame and whether it is the centre. For a stored frame it copies the stored score, time and error flag. For any other frame it has no score, no time and no error. It needs analysis exactly when the frame does. |
| Focus.CollectWindow | webapp/src/App.jsx:265-279 | The loop over `i = -radius..radius` yields exactly the clipped window of entries. |
| Focus.BestUpTo | webapp/src/App.jsx:280-287 | A local best is an index before `n` of a scored entry. |
| Focus.BestUpToIsFirstMax | webapp/src/App.jsx:280-287 | There is no local best if and only if no entry is scored. Otherwise the best is strictly above every earlier scored entry and at least every later one. |
| Focus.PickLocalBest | webapp/src/App.jsx:280-287 | The `forEach` scan returns exactly the specified local best. |
| Focus.ScoresInFocus | webapp/src/App.jsx:288 | Exactly the scores of scored entries. |
| Focus.Least | webapp/src/App.jsx:289 | `Math.min(...s)` is an element of `s` and at most every element. |
| Focus.Greatest | webapp/src/App.jsx:290 | `Math.max(...s)` is an element of `s` and at least every element. |
| Focus.WindowBounds | webapp/src/App.jsx:289-291 | Every scored entry lies between the local minimum and maximum. |
| Focus.NormalizedInUnit | webapp/src/App.jsx:296 | Every normalised score lies in `[0, 1]`. An unscored or failed entry gets 0.5. |
| Focus.LocalBestIsUnique | webapp/src/App.jsx:293-297 | With distinct frames, at most one item is marked local best. It is the first maximal scored entry, and there is one whenever some entry is scored. |
| Focus.WindowFrames | webapp/src/App.jsx:266-268 | The window's frames ascend by one and are exactly `[max(1, c−r), min(total, c+r)]`. |
| Focus.Window | webapp/src/App.jsx:266-279 | `currentFocusData` as a value. `WindowFrames` states which frames it holds, and `CollectWindow` is proved equal to it. |
| Focus.Normalized | webapp/src/App.jsx:288-296 | `normalizedScoreLocal` of one entry. `NormalizedInUnit` states its range and the 0.5 of unscored entries. |
| Focus.FocusData | webapp/src/App.jsx:293-297 | The displayed window with the local-best flag and the normalised score. `LocalBestIsUnique` states the flag's meaning. |
| Focus.UpdateFocus | webapp/src/App.jsx:261-300 | When shown with a centre and frames, the result is the annotated window. When hidden, the old data is cleared. Otherwise it is left as it was. |
| Workers.WorkerPool.constructor | webapp/src/App.jsx:84-89 | Three free workers, no pending callbacks, task counter 0. |
| Workers.WorkerPool.FirstFree | webapp/src/App.jsx:99 | `findIndex(busy => !busy)`: the lowest free slot, or −1 if and only if every worker is busy. |
| Workers.WorkerPool.Dispatch | webapp/src/App.jsx:97-101 | A cancelled session or a full pool changes nothing. A dispatch takes the lowest free slot, marks it busy and gets the next task id with a callback on that slot. A failed post frees the slot and drops the callback again, moving only the counter. The pool invariant holds. |
| Workers.WorkerPool.Claim | webapp/src/App.jsx:100-101 | Posting to a free slot takes the next task id and moves the counter. On success the id is fresh, the slot is busy and its callback is registered. On a failed post the slots and callbacks are unchanged. The pool invariant holds. |
| Workers.WorkerPool.OnMessage | webapp/src/App.jsx:91 | A reply for a pending task removes its callback and frees its worker. An unknown id changes nothing. |
| Workers.WorkerPool.OnError | webapp/src/App.jsx:92 | A fault on worker `i` frees slot `i` and rejects and removes exactly the callbacks owned by `i`. Everything else is kept. |
| Workers.WorkerPool.RejectAll | webapp/src/App.jsx:248-250 | The reject-and-clear cleanups of lines 95, 118, 248-250 and 354: every pending callback is rejected and the map cleared. The busy flags are all freed where the cleanup calls `fill(false)` (lines 95, 250, 354), and kept as they were otherwise (line 118). |
| Workers.PendingAtMostWorkers | webapp/src/App.jsx:84-101 | Because callbacks own distinct workers, there are never more pending tasks than workers. |
| Median.InsertPermutes | webapp/src/sharpness.worker.js:7 | One insertion keeps the elements plus the new one. |
| Median.InsertAscending | webapp/src/sharpness.worker.js:7 | Inserting into an ascending list gives an ascending list. |
| Median.SortIsAscendingPermutation | webapp/src/sharpness.worker.js:7 | `values.sort((a, b) => a - b)` yields an ascending permutation. |
| Median.SortInts | webapp/src/sharpness.worker.js:6-7 | The numeric sort of `getMedian` as a value. `SortIsAscendingPermutation` states it is ascending and a permutation. |
| Median.MedianOf | webapp/src/sharpness.worker.js:6-9 | The element at `floor(len/2)` of the sorted list. `MedianBounds` states it is an element bounded by the halves around it. |
| Median.MedianBounds | webapp/src/sharpness.worker.js:6-9 | The median is one of the values. Every sorted element up to the middle is at most it, and every one from the middle on is at least it. |
| Median.SortInPlace | webapp/src/sharpness.worker.js:7 | The in-place sort leaves the array holding the sorted permutation of its old contents. |
| Median.InsertAt | webapp/src/sharpness.worker.js:7 | One insertion step places the key into the sorted prefix and leaves the rest of the array alone. |
| Median.ShiftLarger | webapp/src/sharpness.worker.js:7 | The inner loop moves every element larger than the key one place right and stops at the key's place in the sorted prefix. |
| Median.GetMedian | webapp/src/sharpness.worker.js:6-9 | Returns the element at `floor(n/2)` of the sorted values and leaves the array sorted. |
| SharpnessSpec.PixelOffset | webapp/src/sharpness.worker.js:23 | The RGBA offset of every pixel, and its next three bytes, lie inside the buffer. |
| SharpnessSpec.Gray3 | webapp/src/sharpness.worker.js:3 | The scaled gray value lies in `[0, 765]`. |
| SharpnessSpec.Smooth3 | webapp/src/sharpness.worker.js:32-40 | One cell of the median filter: the border copied, an interior cell the median of its neighbourhood. `SmoothRange` and `UniformMedian` state its range and its value on a uniform image. |
| SharpnessSpec.SmoothImage | webapp/src/sharpness.worker.js:28-43 | The whole smoothed image, a `height × width` grid. |
| SharpnessSpec.Mag2 | webapp/src/sharpness.worker.js:57-71 | Nine times the squared Sobel magnitude, 0 on the border. `UniformGradient` states it is 0 on a uniform neighbourhood. |
| SharpnessSpec.Edge | webapp/src/sharpness.worker.js:85 | The edge test. `EdgeTestMatchesThreshold` states it agrees with `sqrt(g)/3 > 40`. |
| SharpnessSpec.Contribution | webapp/src/sharpness.worker.js:85-108 | One pixel's contribution. `ContributionPositive` states it is positive at an edge and 0 elsewhere. |
| SharpnessSpec.Score | webapp/src/sharpness.worker.js:12-122 | The score as a value. `ScoreSign` and `UniformImageScoresZero` state its sign and its value on a uniform image, and `CalculateSharpness` is proved equal to it. |
| SharpnessSpec.SmoothRange | webapp/src/sharpness.worker.js:28-43 | The median-filtered value stays in `[0, 765]`. |
| SharpnessSpec.EdgeTestMatchesThreshold | webapp/src/sharpness.worker.js:69-85 | The source's `sqrt(gx²+gy²) > 40` on the average gray equals the integer test `Mag2 > 14400` on the scaled gray. |
| SharpnessSpec.ContributionPositive | webapp/src/sharpness.worker.js:85-108 | An edge pixel adds a positive amount and a non-edge pixel adds nothing. |
| SharpnessSpec.TotalSign | webapp/src/sharpness.worker.js:81-111 | The count of contributing pixels is positive if and only if a scanned pixel is an edge. The sum is 0 without them and positive with them. |
| SharpnessSpec.ScoreSign | webapp/src/sharpness.worker.js:73-122 | The score is never negative. It is positive if and only if some scanned pixel is a strong edge. |
| SharpnessSpec.NoEdgeCountsNothing | webapp/src/sharpness.worker.js:81-117 | Without any edge pixel the scan accumulates nothing. |
| SharpnessSpec.UniformMedian | webapp/src/sharpness.worker.js:28-43 | On a uniform image the median filter returns the same value. |
| SharpnessSpec.UniformGradient | webapp/src/sharpness.worker.js:57-71 | On a uniform image every gradient is 0. |
| SharpnessSpec.UniformImageScoresZero | webapp/src/sharpness.worker.js:12-122 | A uniform image scores 0. |
| Sharpness.Grayscale | webapp/src/sharpness.worker.js:20-26 | Every cell of the new gray image is the scaled gray of its pixel. |
| Sharpness.MedianFilter | webapp/src/sharpness.worker.js:28-43 | Border pixels are copied and interior pixels replaced by their 3×3 median, cell by cell as specified. |
| Sharpness.SobelAt | webapp/src/sharpness.worker.js:59-68 | The kernel loops compute exactly the Gx and Gy convolutions of the smoothed image. |
| Sharpness.SobelMagnitudes | webapp/src/sharpness.worker.js:49-71 | The gradient image holds the squared magnitude at every interior pixel, and 0 on the border. |
| Sharpness.WindowSumAt | webapp/src/sharpness.worker.js:86-96 | The window loops return the 5×5 sum around the pixel and the count 25. |
| Sharpness.AccumulateRow | webapp/src/sharpness.worker.js:82-110 | One row of the scan adds exactly that row's specified contributions and edge count. |
| Sharpness.Accumulate | webapp/src/sharpness.worker.js:73-111 | The whole scan returns exactly the specified total and edge count. |
| Sharpness.CalculateSharpness | webapp/src/sharpness.worker.js:12-122 | 0 for a missing buffer or a side below 5. Otherwise exactly the specified score, which `ScoreSign` shows is non-negative and positive exactly when a strong edge exists. |

## Left out

- Seeking (`seekVideoElement`), canvas sampling (`drawImage`, `getImageData`), the analysis element's readiness checks and the worker messaging are I/O. Their result reaches the model as the `Outcome` given to `Complete`: a score, a failure, or nothing when the task returned `null` before storing.
- The worker's `onmessage` wrapper (sharpness.worker.js lines 126-136) only posts the score or the error back. That is the same `Outcome`.
- Timing is not modelled: `requestAnimationFrame` and `setTimeout` rescheduling, the 300 ms play-back back-off (App.jsx line 227), the re-schedule decision (line 228), the settle delay and the seek timeout.
- Workers.WorkerPool.Dispatch: models one `findIndex` attempt. The source retries up to 200 times with random waits (line 99) before throwing, and the model ends at once with `NoWorker`.
- Floating point is not modelled. Scores, times and the scorer's `Float32Array` values are exact reals and integers, so float32 rounding of the grayscale, smoothed and magnitude images is not captured. `Math.sqrt` is the parameter `root`.
- The scorer's flat `Float32Array` buffers are two-dimensional arrays indexed `[y, x]`. The RGBA input stays a flat byte array.
- Median.SortInPlace: an insertion sort stands for the engine's `Array.prototype.sort`. Any correct numeric sort leaves the same list, so the median is the same.
- The focused-heatmap updates inside `analyzeSingleFrame` (App.jsx lines 142-152, 190-200, 205-215) are React state writes. They are not modelled; `UpdateFocus` rebuilds the same window from the store.
- Controller.AnalysisController.Complete: the overall best is compared with the current stored best. The source reads `stableRefs.overallBestFrame`, which can lag one render behind.
- Controller.AnalysisController.Complete: the range and cancellation test at the start of `analyzeSingleFrame` (App.jsx line 136) is not a separate step. An analysis it refuses reaches `Complete` as `Abandoned`.
- Controller.AnalysisController.Complete: the time of a `Failed` outcome is taken as given. The source stores `frameToTime(frame)` there (App.jsx line 203), and the controller holds no frame rate to tie the two.
- Controller.AnalysisController.Complete: does not bound the running count from below. A completion that arrives after a reset or cleanup has zeroed the count still decrements it, as the source does.
- Timeline.StepFrame: the source's extra `|frameToTime(current) − frameToTime(tF)| < TIME_EPSILON` test is always true once `tF == current`, so `Stay` depends on the clamp alone.
- The UI handlers are not modelled beyond their effect on the controller: the focus (`TriggerPriority`), the end of an interaction (`EndInteraction`), playback start (`Resume`) and the start of a user seek (`PauseForSeek`). Their other guards (a visible video element, the playing state) decide only whether these are called. The global heatmap drawing, React rendering and the resize observer are UI.
- Creating and terminating the `Worker` objects and revoking object URLs are browser resources.
