/** Whole call sequences on one filter: the two worked examples of the
    modes, a restart, and a legal sequence after which the ratio-mode cursor
    points past the end of the rebuilt pattern. */
module Scenarios {

  import Ratio
  import Pattern
  import Duration
  import TimeBased
  import opened FrameSkipping

  /** A media sample whose timestamp GetTime reports. */
  function TimedSample(start: int): Sample
  {
    Sample(true, 0, start, start + 1)
  }

  /** 30 fps reduced to 24 fps: one frame in five is dropped, the last of
      each cycle. */
  method RatioModeExample() returns (pattern: seq<int>, decisions: seq<Decision>)
    ensures pattern == [0, 0, 0, 0, 1]
    ensures decisions == [Keep, Keep, Keep, Keep, Drop, Keep]
  {
    var f := ThirtyToTwentyFourFilter();
    pattern := f.framesToBeSkipped;
    var d0 := CycleStep(f, 0);
    var d1 := CycleStep(f, 1);
    var d2 := CycleStep(f, 2);
    var d3 := CycleStep(f, 3);
    var d4 := CycleStep(f, 4);
    var d5 := CycleStep(f, 0);
    decisions := [d0, d1, d2, d3, d4, d5];
  }

  /** A fresh filter after Run with a 30 fps source and a 24 fps target. */
  method ThirtyToTwentyFourFilter() returns (f: FrameSkippingFilter)
    ensures fresh(f)
    ensures f.framesToBeSkipped == [0, 0, 0, 0, 1] && f.currentFrame == 0
    ensures f.sourceFrameRate == 300 && f.frameSkippingMode == SkipXFramesEveryY
    ensures f.skipFrameNumber == 1 && f.totalFrames == 5 && f.skipRatio == 0.0
  {
    f := new FrameSkippingFilter();
    var ok := f.SetParameter(SourceFrameRate(300));
    ok := f.SetParameter(TargetFrameRate(240));
    f.Run();
    ThirtyToTwentyFourPattern();
  }

  /** One media sample through the 30 to 24 fps pattern at cursor c. */
  method CycleStep(f: FrameSkippingFilter, c: nat) returns (d: Decision)
    requires f.framesToBeSkipped == [0, 0, 0, 0, 1] && f.frameSkippingMode == SkipXFramesEveryY
    requires f.currentFrame == c < 5
    modifies f
    ensures f.framesToBeSkipped == [0, 0, 0, 0, 1] && f.frameSkippingMode == SkipXFramesEveryY
    ensures f.sourceFrameRate == old(f.sourceFrameRate)
    ensures f.currentFrame == (if c == 4 then 0 else c + 1)
    ensures d == (if c == 4 then Drop else Keep)
  {
    d := f.Transform(TimedSample(c));
  }

  /** The output pin reads the skip ratio SetParameter last computed. Right
      after Run that is still 0 / 1 from the constructor's counts, and a 1/30 s
      frame is left alone; one more SetParameter picks up Run's 1 / 5, and the
      frame is declared five times longer. */
  method DurationFollowsSetParameter() returns (afterRun: int, afterRefresh: int)
    ensures afterRun == 333333
    ensures afterRefresh == 1666665
  {
    var f := ThirtyToTwentyFourFilter();
    var pin := new FrameSkippingOutputPin(f);
    var offered := new MediaType(Duration.FormatVideoInfo, 333333);
    pin.AdjustAverageTimePerFrameInVideoInfoHeader(offered);
    afterRun := offered.avgTimePerFrame;
    var ok := f.SetParameter(Mode(SkipXFramesEveryY));
    assert f.skipRatio == 0.2;
    Duration.ThirtyToTwentyFourDuration();
    var negotiated := new MediaType(Duration.FormatVideoInfo, 333333);
    pin.AdjustAverageTimePerFrameInVideoInfoHeader(negotiated);
    afterRefresh := negotiated.avgTimePerFrame;
  }

  /** The pattern Run builds for 30 fps to 24 fps. */
  lemma ThirtyToTwentyFourPattern()
    ensures Ratio.ReducedRatio(300, 240) == (1, 5)
    ensures Pattern.DropPattern(1, 5) == [0, 0, 0, 0, 1]
  {
    Duration.ThirtyToTwentyFourDuration();
    assert Pattern.DropPosition(1, 1, 5) == 5;
    assert Pattern.DropPositionsUpTo(1, 1, 5) == {5};
  }

  /** n media samples through Transform in the ratio mode: the cursor and the
      number of dropped samples follow the pattern's folds CursorAfter and
      DropsAfter from the starting cursor. */
  method CountDrops(f: FrameSkippingFilter, n: nat) returns (drops: nat)
    requires f.frameSkippingMode == SkipXFramesEveryY
    requires f.framesToBeSkipped != [] && f.currentFrame < |f.framesToBeSkipped|
    modifies f
    ensures f.framesToBeSkipped == old(f.framesToBeSkipped)
    ensures f.currentFrame == Pattern.CursorAfter(f.framesToBeSkipped, old(f.currentFrame), n)
    ensures drops == Pattern.DropsAfter(f.framesToBeSkipped, old(f.currentFrame), n)
  {
    var p, c := f.framesToBeSkipped, f.currentFrame;
    drops := 0;
    var i := 0;
    while i < n
      invariant i <= n
      invariant f.framesToBeSkipped == p && f.frameSkippingMode == SkipXFramesEveryY
      invariant f.currentFrame == Pattern.CursorAfter(p, c, i)
      invariant drops == Pattern.DropsAfter(p, c, i)
    {
      var d := f.Transform(TimedSample(i));
      if d == Drop {
        drops := drops + 1;
      }
      i := i + 1;
    }
  }

  /** A new filter set to a source and a lower target and run: it holds the
      reduced ratio's pattern with the cursor at its start. */
  method RatioFilter(sourceFrameRate: nat, targetFrameRate: nat)
    returns (f: FrameSkippingFilter)
    requires 0 < targetFrameRate < sourceFrameRate
    ensures fresh(f)
    ensures f.frameSkippingMode == SkipXFramesEveryY && f.currentFrame == 0
    ensures (f.skipFrameNumber, f.totalFrames) == Ratio.ReducedRatio(sourceFrameRate, targetFrameRate)
    ensures 0 < f.skipFrameNumber < f.totalFrames
    ensures f.framesToBeSkipped == Pattern.DropPattern(f.skipFrameNumber, f.totalFrames)
  {
    f := new FrameSkippingFilter();
    var ok := f.SetParameter(SourceFrameRate(sourceFrameRate));
    ok := f.SetParameter(TargetFrameRate(targetFrameRate));
    f.Run();
  }

  /** A filter set to a source and a lower target and run drops, through
      Transform, exactly m * skip of its first m * total samples. */
  method WholeCyclesThroughTransform(sourceFrameRate: nat, targetFrameRate: nat, m: nat)
    returns (drops: nat)
    requires 0 < targetFrameRate < sourceFrameRate
    ensures drops == m * Ratio.ReducedRatio(sourceFrameRate, targetFrameRate).0
  {
    var f := RatioFilter(sourceFrameRate, targetFrameRate);
    var skip, total := f.skipFrameNumber, f.totalFrames;
    Pattern.DropPatternShape(skip, total);
    Pattern.CyclesDropExactlySkip(skip, total, m);
    drops := CountDrops(f, m * total);
  }

  /** The presentation times, in seconds, of samples stamped in ticks. */
  function SecondsOf(ticks: seq<int>): (times: seq<real>)
    ensures |times| == |ticks|
    ensures forall k :: 0 <= k < |ticks| ==> times[k] == TimeBased.Seconds(ticks[k])
  {
    seq(|ticks|, k requires 0 <= k < |ticks| => TimeBased.Seconds(ticks[k]))
  }

  /** Timed samples through Transform in the time-based mode once the
      deadline is seeded: the deadline and the number of kept samples follow
      the folds DeadlineAfter and KeptAfter from the starting deadline. */
  method KeepRun(f: FrameSkippingFilter, ticks: seq<int>) returns (kept: nat)
    requires f.frameSkippingMode == AchieveTargetRate && f.targetFrameRate > 0 && f.isTimeSet
    modifies f
    ensures f.targetFrameRate == old(f.targetFrameRate)
    ensures f.timeFrame ==
            TimeBased.DeadlineAfter(old(f.timeFrame), TimeBased.FrameInterval(f.targetFrameRate), SecondsOf(ticks))
    ensures kept ==
            TimeBased.KeptAfter(old(f.timeFrame), TimeBased.FrameInterval(f.targetFrameRate), SecondsOf(ticks))
  {
    var times := SecondsOf(ticks);
    var interval := TimeBased.FrameInterval(f.targetFrameRate);
    var rate, seed := f.targetFrameRate, f.timeFrame;
    kept := 0;
    var i := 0;
    while i < |ticks|
      invariant i <= |ticks|
      invariant f.frameSkippingMode == AchieveTargetRate && f.targetFrameRate == rate && f.isTimeSet
      invariant f.timeFrame == TimeBased.DeadlineAfter(seed, interval, times[..i])
      invariant kept == TimeBased.KeptAfter(seed, interval, times[..i])
    {
      TimeBased.RunExtended(seed, interval, times[..i], times[i]);
      assert times[..i + 1] == times[..i] + [times[i]];
      var d := f.Transform(TimedSample(ticks[i]));
      if d == Keep {
        kept := kept + 1;
      }
      i := i + 1;
    }
    assert times[..|ticks|] == times;
  }

  /** A filter in the time-based mode, fed a first sample and then a run of
      samples through Transform: the deadline stays on the grid the first
      sample seeds, and the seed moved one interval per later kept sample is
      still before the latest of them, so the target rate is never exceeded. */
  method TargetRateThroughTransform(targetFrameRate: nat, first: int, ticks: seq<int>)
    returns (kept: nat, deadline: real)
    requires targetFrameRate > 0 && ticks != []
    ensures var seed := TimeBased.Seconds(first);
            var interval := TimeBased.FrameInterval(targetFrameRate);
            deadline == TimeBased.Advance(seed + interval,
                          TimeBased.StepsAfter(seed + interval, interval, SecondsOf(ticks)), interval) &&
            (kept > 0 ==> TimeBased.Advance(seed, kept, interval) < TimeBased.LatestTime(SecondsOf(ticks)))
  {
    var f := SeededFilter(targetFrameRate, first);
    kept := KeepRun(f, ticks);
    deadline := f.timeFrame;
    var seed := TimeBased.Seconds(first);
    var interval := TimeBased.FrameInterval(targetFrameRate);
    var times := SecondsOf(ticks);
    TimeBased.DeadlineStaysOnGrid(seed + interval, interval, times);
    TimeBased.KeptFramesRespectTargetRate(seed, interval, times);
  }

  /** A new filter in the time-based mode fed its first sample: that sample
      is kept and seeds the deadline one frame interval after it. */
  method SeededFilter(targetFrameRate: nat, first: int) returns (f: FrameSkippingFilter)
    requires targetFrameRate > 0
    ensures fresh(f)
    ensures f.frameSkippingMode == AchieveTargetRate && f.targetFrameRate == targetFrameRate
    ensures f.isTimeSet
    ensures f.timeFrame == TimeBased.Seconds(first) + TimeBased.FrameInterval(targetFrameRate)
  {
    f := new FrameSkippingFilter();
    var ok := f.SetParameter(Mode(AchieveTargetRate));
    ok := f.SetParameter(TargetFrameRate(targetFrameRate));
    var d := f.Transform(TimedSample(first));
  }

  /** A 30 fps target and samples at 0, 0.01, 0.04, 0.05 and 0.07 s: the
      first seeds the deadline at 1/30 s, 0.04 passes it and moves it to
      2/30 s, 0.05 does not, 0.07 does. */
  method TimeBasedExample() returns (decisions: seq<Decision>)
    ensures decisions == [Keep, Drop, Keep, Drop, Keep]
  {
    var f := new FrameSkippingFilter();
    var ok := f.SetParameter(Mode(AchieveTargetRate));
    ok := f.SetParameter(TargetFrameRate(300));
    ThirtyFpsDeadlines();
    var d0 := f.Transform(TimedSample(0));
    assert f.timeFrame == 1.0 / 30.0;
    var d1 := f.Transform(TimedSample(100000));
    assert f.timeFrame == 1.0 / 30.0;
    var d2 := f.Transform(TimedSample(400000));
    assert f.timeFrame == 2.0 / 30.0;
    var d3 := f.Transform(TimedSample(500000));
    assert f.timeFrame == 2.0 / 30.0;
    var d4 := f.Transform(TimedSample(700000));
    decisions := [d0, d1, d2, d3, d4];
  }

  /** The deadline arithmetic of the time-based example. */
  lemma ThirtyFpsDeadlines()
    ensures TimeBased.FrameInterval(300) == 1.0 / 30.0
    ensures TimeBased.Seconds(0) == 0.0 && TimeBased.Seconds(100000) == 0.01
    ensures TimeBased.Seconds(400000) == 0.04 && TimeBased.Seconds(500000) == 0.05
    ensures TimeBased.Seconds(700000) == 0.07
    ensures TimeBased.NextDeadline(1.0 / 30.0, 0.04, 1.0 / 30.0) == 2.0 / 30.0
  {
    var m := TimeBased.Multiplier(1.0 / 30.0, 0.04, 1.0 / 30.0);
    assert m == 1;
  }

  /** After a stop, the first timed sample in the time-based mode is kept. */
  method RestartKeepsFirstSample(f: FrameSkippingFilter, sample: Sample) returns (d: Decision)
    requires f.frameSkippingMode == AchieveTargetRate && f.targetFrameRate > 0
    requires sample.isMedia && Succeeded(sample.getTimeResult)
    modifies f
    ensures d == Keep
  {
    f.Stop();
    d := f.Transform(sample);
  }

  /** Run rebuilds the pattern without rewinding the cursor: four frames
      into a cycle of five, a new target of 15 fps gives a cycle of two, and
      the cursor is left at 4. */
  method CursorLeftBehind() returns (cursor: nat, length: nat)
    ensures 0 < length <= cursor
  {
    var f := FourFramesIntoCycle();
    var ok := f.SetParameter(TargetFrameRate(150));
    assert f.currentFrame == 4 && f.sourceFrameRate == 300 && f.targetFrameRate == 150;
    f.Run();
    ThirtyToFifteenRatio();
    Pattern.DropPatternShape(1, 2);
    cursor, length := f.currentFrame, |f.framesToBeSkipped|;
  }

  /** A fresh filter reducing 30 fps to 24 fps, four frames into its cycle. */
  method FourFramesIntoCycle() returns (f: FrameSkippingFilter)
    ensures fresh(f)
    ensures f.framesToBeSkipped == [0, 0, 0, 0, 1] && f.currentFrame == 4
    ensures f.sourceFrameRate == 300 && f.frameSkippingMode == SkipXFramesEveryY
  {
    f := ThirtyToTwentyFourFilter();
    var d := CycleStep(f, 0);
    d := CycleStep(f, 1);
    d := CycleStep(f, 2);
    d := CycleStep(f, 3);
  }

  /** 30 fps to 15 fps drops one frame in two. */
  lemma ThirtyToFifteenRatio()
    ensures Ratio.ReducedRatio(300, 150) == (1, 2)
  {
    assert Ratio.Gcd(15, 30) == 15;
  }
}
