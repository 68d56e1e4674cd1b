/**
 * The conversions between playback time and frame number, and the clamp of
 * the step buttons (webapp/src/App.jsx, lines 106-114 and 376). Frames are
 * numbered from 1; frame `f` is shown from time `(f - 1) / frameRate`, and
 * seeks aim one hundredth of a frame past that start.
 */
module Timeline {
  import opened Common

  /** The fraction of a frame's duration added to its start time when seeking. */
  const FRAME_TIME_OFFSET_FACTOR: real := 0.01

  /**
   * `timeToFrame`: `floor(time * frameRate) + 1`, clamped into
   * `[1, totalFrames]`; 0 while the duration, the rate or the frame count is
   * still 0.
   */
  function TimeToFrame(time: real, duration: real, frameRate: real, totalFrames: int): (r: int)
    ensures duration == 0.0 || frameRate == 0.0 || totalFrames == 0 ==> r == 0
    ensures duration != 0.0 && frameRate != 0.0 && totalFrames > 0 ==> 1 <= r <= totalFrames
    ensures duration != 0.0 && frameRate != 0.0 && totalFrames > 0 && 1 <= (time * frameRate).Floor + 1 <= totalFrames
      ==> r == (time * frameRate).Floor + 1
    ensures duration != 0.0 && frameRate != 0.0 && totalFrames > 0 && (time * frameRate).Floor + 1 < 1 ==> r == 1
    ensures duration != 0.0 && frameRate != 0.0 && totalFrames > 0 && (time * frameRate).Floor + 1 > totalFrames
      ==> r == totalFrames
  {
    if duration == 0.0 || frameRate == 0.0 || totalFrames == 0 then 0
    else Min(totalFrames, Max(1, (time * frameRate).Floor + 1))
  }

  /** `frameToTime`: the start of frame `frame` plus the seek offset, never negative; 0 without a rate or a frame. */
  function FrameToTime(frame: int, frameRate: real): (t: real)
    ensures t >= 0.0
    ensures frameRate == 0.0 || frame <= 0 ==> t == 0.0
  {
    if frameRate == 0.0 || frame <= 0 then 0.0
    else
      var frameDuration := 1.0 / frameRate;
      var t := (frame - 1) as real / frameRate + frameDuration * FRAME_TIME_OFFSET_FACTOR;
      if t >= 0.0 then t else 0.0
  }

  /** The time a seek to frame `f` aims at lies strictly inside that frame, one hundredth of the way in. */
  lemma SeekTimeInsideFrame(f: int, frameRate: real)
    requires frameRate > 0.0 && f >= 1
    ensures FrameToTime(f, frameRate) * frameRate == (f - 1) as real + FRAME_TIME_OFFSET_FACTOR
  {
    var a := (f - 1) as real / frameRate;
    var b := (1.0 / frameRate) * FRAME_TIME_OFFSET_FACTOR;
    assert a * frameRate == (f - 1) as real;
    assert b * frameRate == FRAME_TIME_OFFSET_FACTOR;
    assert a >= 0.0 && b > 0.0;
    assert FrameToTime(f, frameRate) == a + b;
    assert (a + b) * frameRate == a * frameRate + b * frameRate;
  }

  /** Seeking to a frame and reading the frame back at that time gives the same frame. */
  lemma FrameTimeRoundTrip(f: int, duration: real, frameRate: real, totalFrames: int)
    requires duration != 0.0 && frameRate > 0.0 && 1 <= f <= totalFrames
    ensures TimeToFrame(FrameToTime(f, frameRate), duration, frameRate, totalFrames) == f
  {
    SeekTimeInsideFrame(f, frameRate);
    var x := FrameToTime(f, frameRate) * frameRate;
    assert (f - 1) as real <= x < f as real;
    assert x.Floor == f - 1;
  }

  /** What a press of a step button does. */
  datatype StepAction =
    /** No video frames: the interaction ends at once. */
    | NoFrames
    /** The clamped target is the current frame: the interaction ends without a seek. */
    | Stay
    /** A user seek to the target frame's time. */
    | SeekTo(frame: int, time: real)

  /**
   * `handleStepFrame`: the target `current + direction` clamped into
   * `[1, totalFrames]`; the seek is skipped when the clamp lands on the
   * current frame.
   */
  function StepFrame(current: int, direction: int, totalFrames: int, frameRate: real): (r: StepAction)
    ensures totalFrames <= 0 <==> r.NoFrames?
    ensures r.SeekTo? ==>
      && 1 <= r.frame <= totalFrames && r.frame != current
      && r.time == FrameToTime(r.frame, frameRate)
    ensures r.SeekTo? ==> r.frame == Clamp(current + direction, 1, totalFrames)
    ensures r.SeekTo? && 1 <= current + direction <= totalFrames ==> r.frame == current + direction
    ensures r.SeekTo? && direction > 0 && 1 <= current <= totalFrames ==> current < r.frame <= current + direction
    ensures r.SeekTo? && direction < 0 && 1 <= current <= totalFrames ==> current + direction <= r.frame < current
    ensures r.Stay? <==> totalFrames > 0 && Clamp(current + direction, 1, totalFrames) == current
  {
    if totalFrames > 0 then
      var tF := Max(1, Min(current + direction, totalFrames));
      if tF == current then Stay
      else SeekTo(tF, FrameToTime(tF, frameRate))
    else NoFrames
  }
}
