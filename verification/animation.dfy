/**
 * The sprite animation frame stepper (Sources/HelbreathRaylib/Animation.h):
 * a frame counter that advances once per `frame_delay` seconds, forwards or
 * backwards, wrapping around or stopping at the last frame.
 *
 * Times are `double` in the source and `real` here, so rounding is not modelled.
 */
module AnimationModel {
  import opened Arith

  /** One more than the largest `size_t`. */
  const SIZE_LIMIT: int := 0x1_0000_0000_0000_0000

  /** The default `frame_delay` of 0.1 seconds. */
  const DEFAULT_FRAME_DELAY: real := 0.1

  /** The frame `reset` starts from (Animation.h:70-74). */
  function ResetFrame(maxFrame: nat, reverse: bool): (f: nat)
    ensures maxFrame > 0 ==> f < maxFrame
    ensures reverse && maxFrame > 0 ==> f == maxFrame - 1
    ensures !(reverse && maxFrame > 0) ==> f == 0
  {
    if reverse && maxFrame > 0 then maxFrame - 1 else 0
  }

  /** The frame one `update` step moves to, for an animation of more than one frame (Animation.h:89-104). */
  function NextFrame(frame: nat, maxFrame: nat, loop: bool, reverse: bool): nat
    requires maxFrame > 1
  {
    if !reverse then
      if loop then (frame + 1) % maxFrame
      else if frame + 1 < maxFrame then frame + 1
      else frame
    else
      if loop then (if frame == 0 then maxFrame - 1 else frame - 1)
      else if frame > 0 then frame - 1
      else frame
  }

  /** `n` steps of `NextFrame`. */
  function Steps(frame: nat, maxFrame: nat, loop: bool, reverse: bool, n: nat): nat
    requires maxFrame > 1
    decreases n
  {
    if n == 0 then frame else Steps(NextFrame(frame, maxFrame, loop, reverse), maxFrame, loop, reverse, n - 1)
  }

  /** A step never leaves the frame range. */
  lemma NextFrameInRange(frame: nat, maxFrame: nat, loop: bool, reverse: bool)
    requires maxFrame > 1 && frame < maxFrame
    ensures NextFrame(frame, maxFrame, loop, reverse) < maxFrame
  {
  }

  /** A looping animation wraps from the last frame to the first going forward, and from the first to the last going back. */
  lemma LoopWraps(maxFrame: nat)
    requires maxFrame > 1
    ensures NextFrame(maxFrame - 1, maxFrame, true, false) == 0
    ensures NextFrame(0, maxFrame, true, true) == maxFrame - 1
  {
  }

  /** After n steps, a looping forward animation is n frames further on, modulo the frame count. */
  lemma {:induction false} LoopForwardSteps(frame: nat, maxFrame: nat, n: nat)
    requires maxFrame > 1 && frame < maxFrame
    ensures Steps(frame, maxFrame, true, false, n) == (frame + n) % maxFrame
    decreases n
  {
    if n > 0 {
      var next := NextFrame(frame, maxFrame, true, false);
      LoopForwardSteps(next, maxFrame, n - 1);
      ModAddOne(frame, n - 1, maxFrame);
    }
  }

  /** (frame + 1) % m + k and frame + 1 + k agree modulo m. */
  lemma ModAddOne(frame: nat, k: nat, m: nat)
    requires m > 0
    ensures ((frame + 1) % m + k) % m == (frame + 1 + k) % m
  {
    var x := frame + 1;
    var q, r := x / m, x % m;
    var q', r' := (r + k) / m, (r + k) % m;
    assert x + k == (q + q') * m + r' by {
      assert x == q * m + r;
      assert r + k == q' * m + r';
      assert (q + q') * m == q * m + q' * m;
    }
    ModUnique(x + k, q + q', r', m);
  }

  /** After n steps, a looping reverse animation is n frames further back, modulo the frame count. */
  lemma {:induction false} LoopReverseSteps(frame: nat, maxFrame: nat, n: nat)
    requires maxFrame > 1 && frame < maxFrame
    ensures Steps(frame, maxFrame, true, true, n) == (frame - n) % maxFrame
    decreases n
  {
    if n > 0 {
      var next := NextFrame(frame, maxFrame, true, true);
      LoopReverseSteps(next, maxFrame, n - 1);
      if frame == 0 {
        assert next == maxFrame - 1;
        assert (maxFrame - 1 - (n - 1)) == (frame - n) + maxFrame;
        ModShift(frame - n, maxFrame);
      } else {
        assert next - (n - 1) == frame - n;
      }
    }
  }

  /** A non-looping forward animation advances one frame per step and stops on the last. */
  lemma {:induction false} OnceForwardSteps(frame: nat, maxFrame: nat, n: nat)
    requires maxFrame > 1 && frame < maxFrame
    ensures Steps(frame, maxFrame, false, false, n) == if frame + n < maxFrame - 1 then frame + n else maxFrame - 1
    decreases n
  {
    if n > 0 {
      OnceForwardSteps(NextFrame(frame, maxFrame, false, false), maxFrame, n - 1);
    }
  }

  /** A non-looping reverse animation goes back one frame per step and stops on the first. */
  lemma {:induction false} OnceReverseSteps(frame: nat, maxFrame: nat, n: nat)
    requires maxFrame > 1 && frame < maxFrame
    ensures Steps(frame, maxFrame, false, true, n) == if frame >= n then frame - n else 0
    decreases n
  {
    if n > 0 {
      OnceReverseSteps(NextFrame(frame, maxFrame, false, true), maxFrame, n - 1);
    }
  }

  /** `is_finished` (Animation.h:110-114); `max_frame - 1` wraps to the largest `size_t` for an animation of no frames. */
  predicate Finished(frame: nat, maxFrame: nat, loop: bool, reverse: bool)
  {
    (!loop && !reverse && frame == (maxFrame - 1) % SIZE_LIMIT) ||
    (!loop && reverse && frame == 0)
  }

  /** A finished animation of more than one frame stays where it is; a looping one is never finished. */
  lemma FinishedStays(frame: nat, maxFrame: nat, loop: bool, reverse: bool)
    requires 1 < maxFrame < SIZE_LIMIT && frame < maxFrame
    ensures Finished(frame, maxFrame, loop, reverse) ==> NextFrame(frame, maxFrame, loop, reverse) == frame
    ensures loop ==> !Finished(frame, maxFrame, loop, reverse)
    ensures !loop ==> (Finished(frame, maxFrame, loop, reverse) <==> NextFrame(frame, maxFrame, loop, reverse) == frame)
  {
  }

  /** `Animation`: its configuration and its playback state. */
  class Animation {
    var maxFrame: nat
    var frameDelay: real
    var loop: bool
    var reverse: bool
    var empty: bool
    var currentFrame: nat
    var lastFrameTime: real

    /** The frame stays inside the animation: below `max_frame`, or 0 when there are no frames. */
    ghost predicate Valid()
      reads this
    {
      maxFrame < SIZE_LIMIT && (if maxFrame == 0 then currentFrame == 0 else currentFrame < maxFrame)
    }

    /** The default constructor (Animation.h:24-26): an empty animation. */
    constructor Empty()
      ensures Valid() && empty && maxFrame == 0 && frameDelay == DEFAULT_FRAME_DELAY && loop && !reverse
      ensures currentFrame == 0 && lastFrameTime == 0.0
    {
      maxFrame := 0;
      frameDelay := DEFAULT_FRAME_DELAY;
      loop := true;
      reverse := false;
      empty := true;
      currentFrame := 0;
      lastFrameTime := 0.0;
    }

    /**
     * The (start, count, delay, looped, reversed) constructor (Animation.h:28-40):
     * the `reset` in its body overrides the start frame.
     */
    constructor (start: nat, count: nat, delay: real, looped: bool, reversed: bool)
      requires count < SIZE_LIMIT
      ensures Valid() && !empty && maxFrame == count && frameDelay == delay && loop == looped && reverse == reversed
      ensures currentFrame == ResetFrame(count, reversed) && lastFrameTime == 0.0
    {
      maxFrame := count;
      frameDelay := delay;
      loop := looped;
      reverse := reversed;
      empty := false;
      currentFrame := start;
      lastFrameTime := 0.0;
      new;
      Reset();
    }

    /** The copy constructor (Animation.h:42-50): the configuration of `other`, with the state reset. */
    constructor Copy(other: Animation)
      requires other.maxFrame < SIZE_LIMIT
      ensures Valid()
      ensures maxFrame == other.maxFrame && frameDelay == other.frameDelay && loop == other.loop
      ensures reverse == other.reverse && empty == other.empty
      ensures currentFrame == ResetFrame(maxFrame, reverse) && lastFrameTime == 0.0
    {
      maxFrame := other.maxFrame;
      frameDelay := other.frameDelay;
      loop := other.loop;
      reverse := other.reverse;
      empty := other.empty;
      currentFrame := 0;
      lastFrameTime := 0.0;
      new;
      Reset();
    }

    /** Copy assignment (Animation.h:52-65): assigning an animation to itself changes nothing. */
    method Assign(other: Animation)
      requires other.maxFrame < SIZE_LIMIT && Valid()
      modifies this
      ensures Valid()
      ensures other == this ==> unchanged(this)
      ensures other != this ==>
        maxFrame == other.maxFrame && frameDelay == other.frameDelay && loop == other.loop &&
        reverse == other.reverse && empty == other.empty &&
        currentFrame == ResetFrame(maxFrame, reverse) && lastFrameTime == 0.0
      ensures other != this ==> unchanged(other)
    {
      if this != other {
        maxFrame := other.maxFrame;
        frameDelay := other.frameDelay;
        loop := other.loop;
        reverse := other.reverse;
        empty := other.empty;
        Reset();
      }
    }

    /** `reset` (Animation.h:70-74). */
    method Reset()
      requires maxFrame < SIZE_LIMIT
      modifies this
      ensures Valid()
      ensures currentFrame == ResetFrame(maxFrame, reverse) && lastFrameTime == 0.0
      ensures maxFrame == old(maxFrame) && frameDelay == old(frameDelay) && loop == old(loop)
      ensures reverse == old(reverse) && empty == old(empty)
    {
      currentFrame := if reverse && maxFrame > 0 then maxFrame - 1 else 0;
      lastFrameTime := 0.0;
    }

    /**
     * `update` (Animation.h:79-105): nothing happens for an empty animation,
     * one of at most one frame, or before `frame_delay` has passed since the
     * last step; otherwise the frame takes one step and the time is recorded.
     */
    method Update(currentTime: real)
      requires Valid()
      modifies this
      ensures Valid()
      ensures maxFrame == old(maxFrame) && frameDelay == old(frameDelay) && loop == old(loop)
      ensures reverse == old(reverse) && empty == old(empty)
      ensures empty || maxFrame <= 1 || currentTime - old(lastFrameTime) < frameDelay ==>
        currentFrame == old(currentFrame) && lastFrameTime == old(lastFrameTime)
      ensures !(empty || maxFrame <= 1 || currentTime - old(lastFrameTime) < frameDelay) ==>
        currentFrame == NextFrame(old(currentFrame), maxFrame, loop, reverse) && lastFrameTime == currentTime
    {
      if empty {
        return;
      }
      if maxFrame <= 1 {
        return;
      }
      if currentTime - lastFrameTime < frameDelay {
        return;
      }
      lastFrameTime := currentTime;
      if !reverse {
        if loop {
          currentFrame := (currentFrame + 1) % maxFrame;
        } else if currentFrame + 1 < maxFrame {
          currentFrame := currentFrame + 1;
        }
      } else {
        if loop {
          currentFrame := if currentFrame == 0 then maxFrame - 1 else currentFrame - 1;
        } else if currentFrame > 0 {
          currentFrame := currentFrame - 1;
        }
      }
    }

    /** `is_finished` (Animation.h:110-114). */
    predicate IsFinished()
      reads this
    {
      Finished(currentFrame, maxFrame, loop, reverse)
    }
  }
}
