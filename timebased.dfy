/** The deadline arithmetic of the "achieve target rate" mode. A frame is
    kept when its presentation time passes the current deadline; the
    deadline then jumps forward by the least whole number of frame
    intervals that puts it at or past that time, so it never drifts off the
    grid it was seeded on. */
module TimeBased {

  import Reals

  /** Sample timestamps are counted in units of 10^-7 seconds. */
  const TimestampFactor: real := 10000000.0

  /** A timestamp in seconds. */
  function Seconds(ticks: int): (t: real)
    ensures t * TimestampFactor == ticks as real
  {
    ticks as real / TimestampFactor
  }

  /** The frame interval in seconds of a target rate given in tenths of a
      frame per second. */
  function FrameInterval(targetFrameRate: nat): (i: real)
    requires targetFrameRate > 0
    ensures i > 0.0 && i * (targetFrameRate as real / 10.0) == 1.0
  {
    1.0 / (targetFrameRate as real / 10.0)
  }

  /** `ceil` on reals. */
  function Ceil(x: real): (n: int)
    ensures x <= n as real < x + 1.0
  {
    -((-x).Floor)
  }

  /** The ceiling of gap / interval, for a positive gap, is a positive number
      of intervals covering the gap, one fewer of which does not. */
  lemma CeilCoversGap(gap: real, interval: real)
    requires interval > 0.0 && gap > 0.0
    ensures var c := Ceil(gap / interval);
            c >= 1 && c as real * interval >= gap && (c - 1) as real * interval < gap
  {
    var g := gap / interval;
    var c := Ceil(g);
    assert g * interval == gap;
    assert g > 0.0;
    GapBracket(gap, interval, g, (c - 1) as real, c as real);
  }

  /** gap == g * interval with below < g <= above puts gap strictly above
      below intervals and at most above intervals, on plain reals. */
  lemma GapBracket(gap: real, interval: real, g: real, below: real, above: real)
    requires interval > 0.0 && g * interval == gap && below < g <= above
    ensures below * interval < gap <= above * interval
  {
    Reals.ScaleBelow(below, g, interval);
    Reals.ScaleAtMost(g, above, interval);
  }

  /** The number of whole intervals the deadline jumps when a frame at `now`
      is past it: the least m >= 1 with deadline + m * interval >= now. */
  function Multiplier(deadline: real, now: real, interval: real): (m: int)
    requires interval > 0.0 && now > deadline
    ensures m >= 1
    ensures deadline + m as real * interval >= now
    ensures m > 1 ==> deadline + (m - 1) as real * interval < now
  {
    CeilCoversGap(now - deadline, interval);
    var c := Ceil((now - deadline) / interval);
    if c == 0 then 1 else c
  }

  /** The deadline after keeping a frame at `now`: strictly later than the
      old one, at or after `now`, and less than one interval after it. */
  function NextDeadline(deadline: real, now: real, interval: real): (d: real)
    requires interval > 0.0 && now > deadline
    ensures deadline < d && now <= d < now + interval
  {
    var m := Multiplier(deadline, now, interval);
    assert m as real * interval == (m - 1) as real * interval + interval;
    Reals.ScaleAtMost(0.0, (m - 1) as real, interval);
    deadline + m as real * interval
  }

  /** One frame at `now`: the deadline moves only when the frame is kept. */
  function DeadlineStep(deadline: real, now: real, interval: real): (d: real)
    requires interval > 0.0
    ensures now <= deadline ==> d == deadline
    ensures now > deadline ==> deadline < d && now <= d < now + interval
  {
    if now > deadline then NextDeadline(deadline, now, interval) else deadline
  }

  /** The whole intervals one frame at `now` moves the deadline by. */
  function StepCount(deadline: real, now: real, interval: real): nat
    requires interval > 0.0
  {
    if now > deadline then Multiplier(deadline, now, interval) else 0
  }

  /** A deadline moved forward by k whole intervals, one at a time. */
  function Advance(d: real, k: nat, i: real): real
  {
    if k == 0 then d else Advance(d, k - 1, i) + i
  }

  /** Moving k intervals one at a time is adding k times the interval. */
  lemma {:induction false} AdvanceIsProduct(d: real, k: nat, i: real)
    ensures Advance(d, k, i) == d + k as real * i
  {
    if k > 0 {
      AdvanceIsProduct(d, k - 1, i);
      assert k as real * i == (k - 1) as real * i + i;
    }
  }

  /** Moving m intervals and then r more is moving m + r intervals. */
  lemma {:induction false} AdvanceAdds(d: real, m: nat, r: nat, i: real)
    ensures Advance(Advance(d, m, i), r, i) == Advance(d, m + r, i)
  {
    if r > 0 {
      AdvanceAdds(d, m, r - 1, i);
    }
  }

  /** With a positive interval, more intervals reach further. */
  lemma {:induction false} AdvanceMonotone(d: real, a: nat, b: nat, i: real)
    requires i > 0.0 && a <= b
    ensures Advance(d, a, i) <= Advance(d, b, i)
  {
    if b > a {
      AdvanceMonotone(d, a, b - 1, i);
    }
  }

  /** One frame moves the deadline by a whole number of intervals. */
  lemma StepOnGrid(deadline: real, now: real, interval: real)
    requires interval > 0.0
    ensures DeadlineStep(deadline, now, interval) ==
            Advance(deadline, StepCount(deadline, now, interval), interval)
  {
    if now > deadline {
      AdvanceIsProduct(deadline, Multiplier(deadline, now, interval), interval);
    }
  }

  /** The deadline after a run of frames at a constant interval. */
  function DeadlineAfter(deadline: real, interval: real, times: seq<real>): real
    requires interval > 0.0
    decreases |times|
  {
    if times == [] then deadline
    else DeadlineAfter(DeadlineStep(deadline, times[0], interval), interval, times[1..])
  }

  /** The whole intervals the deadline moved over a run of frames. */
  function StepsAfter(deadline: real, interval: real, times: seq<real>): nat
    requires interval > 0.0
    decreases |times|
  {
    if times == [] then 0
    else
      StepCount(deadline, times[0], interval) +
      StepsAfter(DeadlineStep(deadline, times[0], interval), interval, times[1..])
  }

  /** The frames of a run that are kept. */
  function KeptAfter(deadline: real, interval: real, times: seq<real>): nat
    requires interval > 0.0
    decreases |times|
  {
    if times == [] then 0
    else
      (if times[0] > deadline then 1 else 0) +
      KeptAfter(DeadlineStep(deadline, times[0], interval), interval, times[1..])
  }

  /** A run extended by one frame: the fold takes one more step from where
      the run left the deadline, in deadline, steps and kept count. */
  lemma {:induction false} RunExtended(deadline: real, interval: real, times: seq<real>, t: real)
    requires interval > 0.0
    ensures DeadlineAfter(deadline, interval, times + [t]) ==
            DeadlineStep(DeadlineAfter(deadline, interval, times), t, interval)
    ensures StepsAfter(deadline, interval, times + [t]) ==
            StepsAfter(deadline, interval, times) +
            StepCount(DeadlineAfter(deadline, interval, times), t, interval)
    ensures KeptAfter(deadline, interval, times + [t]) ==
            KeptAfter(deadline, interval, times) +
            (if t > DeadlineAfter(deadline, interval, times) then 1 else 0)
    decreases |times|
  {
    if times == [] {
      assert ([] + [t])[1..] == [];
    } else {
      assert (times + [t])[0] == times[0];
      assert (times + [t])[1..] == times[1..] + [t];
      RunExtended(DeadlineStep(deadline, times[0], interval), interval, times[1..], t);
    }
  }

  /** The latest time of a non-empty run. */
  function LatestTime(times: seq<real>): (t: real)
    requires times != []
    ensures forall k :: 0 <= k < |times| ==> times[k] <= t
    ensures exists k :: 0 <= k < |times| && times[k] == t
  {
    if |times| == 1 then times[0]
    else
      var rest := LatestTime(times[1..]);
      assert forall k :: 1 <= k < |times| ==> times[k] == times[1..][k - 1];
      if times[0] >= rest then times[0] else rest
  }

  /** The deadline stays on the grid it started on: it is the starting
      deadline moved forward by a whole number of intervals. */
  lemma {:induction false} DeadlineStaysOnGrid(deadline: real, interval: real, times: seq<real>)
    requires interval > 0.0
    ensures DeadlineAfter(deadline, interval, times) ==
            Advance(deadline, StepsAfter(deadline, interval, times), interval)
    decreases |times|
  {
    if times != [] {
      var next := DeadlineStep(deadline, times[0], interval);
      DeadlineStaysOnGrid(next, interval, times[1..]);
      StepOnGrid(deadline, times[0], interval);
      AdvanceAdds(deadline, StepCount(deadline, times[0], interval),
                  StepsAfter(next, interval, times[1..]), interval);
    }
  }

  /** Every kept frame moves the deadline by at least one interval. */
  lemma {:induction false} KeptWithinSteps(deadline: real, interval: real, times: seq<real>)
    requires interval > 0.0
    ensures KeptAfter(deadline, interval, times) <= StepsAfter(deadline, interval, times)
    decreases |times|
  {
    if times != [] {
      KeptWithinSteps(DeadlineStep(deadline, times[0], interval), interval, times[1..]);
    }
  }

  /** The deadline never moves back, and ends at or after every frame time of
      the run. */
  lemma {:induction false} DeadlineCoversRun(deadline: real, interval: real, times: seq<real>)
    requires interval > 0.0
    ensures DeadlineAfter(deadline, interval, times) >= deadline
    ensures forall k :: 0 <= k < |times| ==> times[k] <= DeadlineAfter(deadline, interval, times)
    decreases |times|
  {
    if times != [] {
      var next := DeadlineStep(deadline, times[0], interval);
      DeadlineCoversRun(next, interval, times[1..]);
      assert forall k :: 1 <= k < |times| ==> times[k] == times[1..][k - 1];
    }
  }

  /** Unless nothing was kept, the final deadline is less than one interval
      after the latest frame time. */
  lemma {:induction false} DeadlineNearLatest(deadline: real, interval: real, times: seq<real>)
    requires interval > 0.0 && times != []
    ensures KeptAfter(deadline, interval, times) == 0 ||
            DeadlineAfter(deadline, interval, times) < LatestTime(times) + interval
    decreases |times|
  {
    var next := DeadlineStep(deadline, times[0], interval);
    var last := DeadlineAfter(deadline, interval, times);
    if |times| == 1 {
    } else {
      DeadlineNearLatest(next, interval, times[1..]);
      assert LatestTime(times[1..]) <= LatestTime(times) by {
        var k :| 0 <= k < |times[1..]| && times[1..][k] == LatestTime(times[1..]);
        assert times[k + 1] == times[1..][k];
      }
      if KeptAfter(next, interval, times[1..]) == 0 {
        NothingKeptLeavesDeadline(next, interval, times[1..]);
      }
    }
  }

  /** A run in which no frame is kept leaves the deadline where it was. */
  lemma {:induction false} NothingKeptLeavesDeadline(deadline: real, interval: real, times: seq<real>)
    requires interval > 0.0 && KeptAfter(deadline, interval, times) == 0
    ensures DeadlineAfter(deadline, interval, times) == deadline
    decreases |times|
  {
    if times != [] {
      NothingKeptLeavesDeadline(DeadlineStep(deadline, times[0], interval), interval, times[1..]);
    }
  }

  /** The drift-free rate bound: once a frame has seeded the deadline at
      seed + interval, the seed moved forward by one interval per frame kept
      afterwards is still before the latest frame time, so the kept rate
      never exceeds the target rate however the frames are spaced. */
  lemma KeptFramesRespectTargetRate(seed: real, interval: real, times: seq<real>)
    requires interval > 0.0 && times != []
    ensures KeptAfter(seed + interval, interval, times) > 0 ==>
            Advance(seed, KeptAfter(seed + interval, interval, times), interval) < LatestTime(times)
  {
    var kept := KeptAfter(seed + interval, interval, times);
    KeptCountBound(seed, interval, times, kept);
    AdvanceIsProduct(seed, kept, interval);
  }

  /** The rate bound for a given count of kept frames, as a product. */
  lemma KeptCountBound(seed: real, interval: real, times: seq<real>, kept: nat)
    requires interval > 0.0 && times != [] && kept == KeptAfter(seed + interval, interval, times)
    ensures kept > 0 ==> kept as real * interval < LatestTime(times) - seed
  {
    var d := seed + interval;
    if kept > 0 {
      var steps := StepsAfter(d, interval, times);
      DeadlineStaysOnGrid(d, interval, times);
      KeptWithinSteps(d, interval, times);
      DeadlineNearLatest(d, interval, times);
      AdvanceMonotone(d, kept, steps, interval);
      AdvanceIsProduct(d, kept, interval);
      BoundFromGrid(seed, interval, kept as real * interval, Advance(d, kept, interval),
                    DeadlineAfter(d, interval, times), LatestTime(times));
    }
  }

  /** The linear step of the rate bound, on plain reals. */
  lemma BoundFromGrid(seed: real, interval: real, span: real, reached: real, last: real, latest: real)
    requires reached == seed + interval + span && reached <= last && last < latest + interval
    ensures span < latest - seed
  {
  }
}
