/** The retry loop that audio.c and video.c both run after ffmpeg_seek: step the
    seek target back by one second until the frame it lands on is early enough,
    or until two attempts below the start time land on the same frame. */
module Seeking {

  /** Where ffmpeg_seek followed by ffmpeg_grab lands: any function of the seek
      target that never lands later for an earlier target. */
  ghost predicate Monotone(land: int -> nat) {
    forall t, u :: t <= u ==> land(t) <= land(u)
  }

  /** Every seek target below the start time lands on the same frame. */
  ghost predicate FlatBelow(land: int -> nat, start: int, floor: nat) {
    forall t :: t < start ==> land(t) == floor
  }

  /** A loop for target: where seeks land, how frames are stamped, which of them
      are early enough, and the step. */
  datatype Retry = Retry(land: int -> nat, stamp: nat -> int, early: nat -> bool, start: int, target: int, step: int) {
    /** The seek target of attempt i. */
    function Attempt(i: nat): int {
      target - i * step
    }

    /** Attempt i ends the loop: its frame is early enough, or it is below the
        start time and landed on the same timestamp as the one before. */
    ghost predicate Stops(i: nat) {
      || early(land(Attempt(i)))
      || (i > 0 && Attempt(i) < start && stamp(land(Attempt(i))) == stamp(land(Attempt(i - 1))))
    }

    ghost predicate EventuallyStops() {
      exists i: nat :: Stops(i)
    }

    /** Attempt i is the first to end the loop, and lands on frame k. */
    ghost predicate EndsAt(i: nat, k: nat) {
      k == land(Attempt(i)) && Stops(i) && forall j: nat :: j < i ==> !Stops(j)
    }

    /** The loop ends on frame k. */
    ghost predicate EndsOn(k: nat) {
      exists i: nat :: EndsAt(i, k)
    }
  }

  /** For every monotone landing function the loop ends exactly when one second
      is at least one tick, or it never has to step back past the start, or
      its first landing is early enough. */
  lemma RetryStopsIff(loop: Retry)
    requires Monotone(loop.land) && loop.step >= 0
    ensures loop.EventuallyStops()
            <==> loop.step >= 1 || loop.target < loop.start || loop.early(loop.land(loop.target))
  {
    if loop.step >= 1 {
      var i := BelowStart(loop);
      Descend(loop, i);
    } else if loop.target < loop.start {
      assert loop.Attempt(1) == loop.Attempt(0) == loop.target;
      assert loop.Stops(1);
    } else if loop.early(loop.land(loop.target)) {
      assert loop.Attempt(0) == loop.target;
      assert loop.Stops(0);
    } else {
      forall i: nat ensures !loop.Stops(i) { assert loop.Attempt(i) == loop.target; }
    }
  }

  /** An attempt that is certainly below the start time. */
  lemma BelowStart(loop: Retry) returns (i: nat)
    requires loop.step >= 1
    ensures loop.Attempt(i) < loop.start
  {
    i := if loop.target < loop.start then 0 else loop.target - loop.start + 1;
    assert i * (loop.step - 1) >= 0;
    assert i * loop.step == i * (loop.step - 1) + i;
  }

  /** Below the start time each unsuccessful attempt lands strictly earlier, so
      the landed frame number bounds how many are left. */
  lemma {:induction false} Descend(loop: Retry, i: nat)
    requires Monotone(loop.land) && loop.step >= 1 && loop.Attempt(i) < loop.start
    ensures loop.EventuallyStops()
    decreases loop.land(loop.Attempt(i))
  {
    AttemptAfter(loop, i);
    if !loop.Stops(i + 1) { Descend(loop, i + 1); }
  }

  lemma AttemptAfter(loop: Retry, i: nat)
    ensures loop.Attempt(0) == loop.target && loop.Attempt(i + 1) == loop.Attempt(i) - loop.step
  {
    assert (i + 1) * loop.step == i * loop.step + loop.step;
  }

  /** One more attempt that does not end the loop. */
  lemma GoesOn(loop: Retry, i: nat)
    requires forall j: nat :: j < i ==> !loop.Stops(j)
    requires var k := loop.land(loop.Attempt(i));
             && !loop.early(k)
             && (i == 0 || loop.Attempt(i) >= loop.start || loop.stamp(k) != loop.stamp(loop.land(loop.Attempt(i - 1))))
    ensures forall j: nat :: j < i + 1 ==> !loop.Stops(j)
    ensures loop.Attempt(i + 1) == loop.Attempt(i) - loop.step
  {
    AttemptAfter(loop, i);
  }

  /** The attempt that does. */
  lemma EndsHere(loop: Retry, i: nat)
    requires forall j: nat :: j < i ==> !loop.Stops(j)
    requires var k := loop.land(loop.Attempt(i));
             || loop.early(k)
             || (i > 0 && loop.Attempt(i) < loop.start && loop.stamp(k) == loop.stamp(loop.land(loop.Attempt(i - 1))))
    ensures loop.EndsOn(loop.land(loop.Attempt(i)))
  {
    assert loop.EndsAt(i, loop.land(loop.Attempt(i)));
  }

  /** It ends on one frame only. */
  lemma EndsOnce(loop: Retry, k: nat, l: nat)
    requires loop.EndsOn(k) && loop.EndsOn(l)
    ensures k == l
  {
    var i: nat :| loop.EndsAt(i, k);
    var j: nat :| loop.EndsAt(j, l);
    assert i == j;
  }
}
