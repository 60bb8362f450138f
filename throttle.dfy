/**
 * The tap throttle shared by `UIView`'s `clickMethod` and `UIControl`'s
 * `clickAction`: a tap gets through only when at least `clickInterval`
 * seconds have passed since the last tap that got through.
 */
module Throttle {

  /** The stored `clickLastTime` before any tap. */
  const DefaultLastTime: real := 0.0

  /** The stored `clickInterval` when none was set. */
  const DefaultInterval: real := 1.0

  /** A tap at `now` is not ignored: `now - lastTime < interval` fails. */
  predicate Accepts(lastTime: real, interval: real, now: real)
  {
    !(now - lastTime < interval)
  }

  /** The taps at `times` that get through, starting from `lastTime`: each one
    * that does becomes the new `lastTime`. */
  function Accepted(lastTime: real, interval: real, times: seq<real>): (r: seq<real>)
    ensures |r| <= |times|
    ensures forall i :: 0 <= i < |r| ==> r[i] in times
    decreases |times|
  {
    if times == [] then []
    else if Accepts(lastTime, interval, times[0]) then [times[0]] + Accepted(times[0], interval, times[1..])
    else Accepted(lastTime, interval, times[1..])
  }

  /** Taps that get through are at least `interval` apart, and the first is at
    * least `interval` after `lastTime`, whatever order the clock gives. */
  lemma {:induction false} AcceptedSpacing(lastTime: real, interval: real, times: seq<real>)
    ensures var r := Accepted(lastTime, interval, times);
      (|r| > 0 ==> r[0] - lastTime >= interval) &&
      forall i :: 0 <= i < |r| - 1 ==> r[i + 1] - r[i] >= interval
    decreases |times|
  {
    if times != [] {
      AcceptedSpacing(lastTime, interval, times[1..]);
      AcceptedSpacing(times[0], interval, times[1..]);
    }
  }

  /** With a non-positive interval nothing is ignored. */
  lemma {:induction false} NoIntervalAcceptsAll(lastTime: real, interval: real, times: seq<real>)
    requires interval <= 0.0
    requires forall i :: 0 <= i < |times| ==> times[i] >= lastTime
    requires forall i, j :: 0 <= i < j < |times| ==> times[i] <= times[j]
    ensures Accepted(lastTime, interval, times) == times
    decreases |times|
  {
    if times != [] {
      NoIntervalAcceptsAll(times[0], interval, times[1..]);
    }
  }
}
