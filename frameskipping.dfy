/** The frame-skipping filter: its per-instance state, the per-sample
    decision in both modes, the pattern rebuild when the graph runs, the
    reset when it stops, parameter updates, and the output pin's rewrite of
    the declared frame duration. */
module FrameSkipping {

  import Ratio
  import Pattern
  import TimeBased
  import Duration

  /** The two modes of m_uiFrameSkippingMode. */
  const SkipXFramesEveryY: nat := 0
  const AchieveTargetRate: nat := 1

  /** What Transform learns of a sample: whether its stream id is the media
      stream, the result code of GetTime, and the start/stop times GetTime
      reports (in 10^-7 s units) when it succeeds. */
  datatype Sample = Sample(isMedia: bool, getTimeResult: int, start: int, stop: int)

  /** A result code succeeds when it is not negative. */
  predicate Succeeded(hr: int)
  {
    hr >= 0
  }

  /** Transform's result: S_OK passes the sample on, S_FALSE drops it, and a
      failed GetTime code is handed back. */
  datatype Decision = Keep | Drop | Failed(hr: int)

  /** A parameter update the settings interface accepted, or a name it does
      not know. Frame rates are given in tenths of a frame per second. */
  datatype Parameter =
    | SkipFrame(count: nat)
    | TotalFrames(count: nat)
    | SourceFrameRate(rate: nat)
    | TargetFrameRate(rate: nat)
    | Mode(mode: nat)
    | Unrecognised

  class FrameSkippingFilter {
    var skipFrameNumber: nat
    var totalFrames: nat
    var currentFrame: nat
    var frameSkippingMode: nat
    var skipRatio: real
    var sourceFrameRate: nat
    var targetFrameRate: nat
    var framesToBeSkipped: seq<int>
    var isTimeSet: bool
    var timeFrame: real
    var timeCurrent: real
    var targetTimeFrame: real
    var tStart: int
    var tStop: int

    /** The values of the constructor's initializer list; the mode and the
        source rate start at 0. */
    constructor ()
      ensures skipFrameNumber == 0 && totalFrames == 1 && currentFrame == 0
      ensures skipRatio == 1.0 && targetFrameRate == 0 && !isTimeSet
      ensures timeFrame == 0.0 && timeCurrent == 0.0 && targetTimeFrame == 0.0
      ensures tStart == 0 && tStop == 0
      ensures frameSkippingMode == SkipXFramesEveryY && sourceFrameRate == 0
      ensures framesToBeSkipped == []
    {
      skipFrameNumber := 0;
      totalFrames := 1;
      currentFrame := 0;
      skipRatio := 1.0;
      targetFrameRate := 0;
      isTimeSet := false;
      timeFrame := 0.0;
      timeCurrent := 0.0;
      targetTimeFrame := 0.0;
      tStart := 0;
      tStop := 0;
      frameSkippingMode := SkipXFramesEveryY;
      sourceFrameRate := 0;
      framesToBeSkipped := [];
    }

    /** The cursor indexes the pattern whenever there is one. */
    predicate CursorInRange()
      reads this
    {
      framesToBeSkipped == [] || currentFrame < |framesToBeSkipped|
    }

    /** The per-sample decision. Non-media samples pass untouched. In the
        time-based mode the first timed sample seeds the deadline one
        interval after it and is kept; later samples are kept exactly when
        they are past the deadline, which then jumps forward by whole
        intervals to the first grid point at or after the sample. In the
        ratio mode the pattern entry under the cursor decides and the cursor
        moves on, wrapping at the end. */
    method Transform(sample: Sample) returns (d: Decision)
      requires sample.isMedia && frameSkippingMode == SkipXFramesEveryY ==> CursorInRange()
      modifies this`currentFrame, this`targetTimeFrame, this`tStart, this`tStop,
               this`timeCurrent, this`timeFrame, this`isTimeSet
      // the ratio mode and the samples that bypass skipping
      ensures !sample.isMedia || frameSkippingMode != AchieveTargetRate ==>
                isTimeSet == old(isTimeSet) && timeFrame == old(timeFrame) &&
                timeCurrent == old(timeCurrent) && targetTimeFrame == old(targetTimeFrame) &&
                tStart == old(tStart) && tStop == old(tStop)
      ensures !sample.isMedia ==> d == Keep && currentFrame == old(currentFrame)
      ensures sample.isMedia && frameSkippingMode != AchieveTargetRate &&
              frameSkippingMode != SkipXFramesEveryY ==>
                d == Keep && currentFrame == old(currentFrame)
      ensures sample.isMedia && frameSkippingMode == SkipXFramesEveryY && framesToBeSkipped == [] ==>
                d == Keep && currentFrame == old(currentFrame)
      ensures sample.isMedia && frameSkippingMode == SkipXFramesEveryY && framesToBeSkipped != [] ==>
                old(currentFrame) < |framesToBeSkipped| &&
                d == (if framesToBeSkipped[old(currentFrame)] == 1 then Drop else Keep) &&
                currentFrame == Pattern.NextCursor(framesToBeSkipped, old(currentFrame)) &&
                currentFrame < |framesToBeSkipped|
      // the time-based mode
      ensures sample.isMedia && frameSkippingMode == AchieveTargetRate ==>
                currentFrame == old(currentFrame)
      ensures sample.isMedia && frameSkippingMode == AchieveTargetRate && targetFrameRate == 0 ==>
                d == Keep && isTimeSet == old(isTimeSet) && timeFrame == old(timeFrame) &&
                timeCurrent == old(timeCurrent) && targetTimeFrame == old(targetTimeFrame) &&
                tStart == old(tStart) && tStop == old(tStop)
      ensures sample.isMedia && frameSkippingMode == AchieveTargetRate && targetFrameRate != 0 ==>
                targetTimeFrame == TimeBased.FrameInterval(targetFrameRate)
      ensures sample.isMedia && frameSkippingMode == AchieveTargetRate && targetFrameRate != 0 &&
              !Succeeded(sample.getTimeResult) ==>
                d == Failed(sample.getTimeResult) && isTimeSet == old(isTimeSet) &&
                timeFrame == old(timeFrame) && timeCurrent == old(timeCurrent) &&
                tStart == old(tStart) && tStop == old(tStop)
      ensures sample.isMedia && frameSkippingMode == AchieveTargetRate && targetFrameRate != 0 &&
              Succeeded(sample.getTimeResult) ==>
                tStart == sample.start && tStop == sample.stop && isTimeSet &&
                timeCurrent == TimeBased.Seconds(sample.start)
      ensures sample.isMedia && frameSkippingMode == AchieveTargetRate && targetFrameRate != 0 &&
              Succeeded(sample.getTimeResult) && !old(isTimeSet) ==>
                d == Keep &&
                timeFrame == TimeBased.Seconds(sample.start) + TimeBased.FrameInterval(targetFrameRate)
      ensures sample.isMedia && frameSkippingMode == AchieveTargetRate && targetFrameRate != 0 &&
              Succeeded(sample.getTimeResult) && old(isTimeSet) ==>
                var now := TimeBased.Seconds(sample.start);
                var interval := TimeBased.FrameInterval(targetFrameRate);
                d == (if now > old(timeFrame) then Keep else Drop) &&
                timeFrame == TimeBased.DeadlineStep(old(timeFrame), now, interval) &&
                (now > old(timeFrame) ==> old(timeFrame) < timeFrame && now <= timeFrame < now + interval)
    {
      if !sample.isMedia {
        return Keep;
      }
      if frameSkippingMode == AchieveTargetRate {
        if targetFrameRate != 0 {
          targetTimeFrame := TimeBased.FrameInterval(targetFrameRate);
          var hr := sample.getTimeResult;
          if Succeeded(hr) {
            tStart, tStop := sample.start, sample.stop;
            if !isTimeSet {
              timeCurrent := TimeBased.Seconds(tStart);
              timeFrame := timeCurrent + targetTimeFrame;
              isTimeSet := true;
              return Keep;
            } else {
              timeCurrent := TimeBased.Seconds(tStart);
              if timeCurrent > timeFrame {
                var multiplier := TimeBased.Ceil((timeCurrent - timeFrame) / targetTimeFrame);
                if multiplier == 0 {
                  multiplier := 1;
                }
                assert multiplier == TimeBased.Multiplier(timeFrame, timeCurrent, targetTimeFrame);
                timeFrame := timeFrame + targetTimeFrame * multiplier as real;
                return Keep;
              } else {
                return Drop;
              }
            }
          } else {
            return Failed(hr);
          }
        } else {
          return Keep;
        }
      } else if frameSkippingMode == SkipXFramesEveryY {
        if framesToBeSkipped == [] {
          return Keep;
        }
        var iSkip := framesToBeSkipped[currentFrame];
        currentFrame := currentFrame + 1;
        if currentFrame >= |framesToBeSkipped| {
          currentFrame := 0;
        }
        if iSkip == 1 {
          return Drop;
        }
        return Keep;
      } else {
        return Keep;
      }
    }

    /** Rebuilds the drop pattern when the graph starts running in the ratio
        mode: the pattern is cleared, the rates are reduced, and for a ratio
        with 0 < skip < total the pattern gets one entry per cycle position,
        1 at the positions round(k * total / skip) for k = 1..skip. A failed
        reduction leaves skip and total as they were; the cursor is left
        where it was. */
    method Run()
      requires frameSkippingMode == SkipXFramesEveryY ==>
                 Ratio.RatioDefined(sourceFrameRate, targetFrameRate)
      modifies this`framesToBeSkipped, this`skipFrameNumber, this`totalFrames
      ensures frameSkippingMode != SkipXFramesEveryY ==>
                framesToBeSkipped == old(framesToBeSkipped) &&
                skipFrameNumber == old(skipFrameNumber) && totalFrames == old(totalFrames)
      ensures frameSkippingMode == SkipXFramesEveryY && targetFrameRate > sourceFrameRate ==>
                framesToBeSkipped == [] &&
                skipFrameNumber == old(skipFrameNumber) && totalFrames == old(totalFrames)
      ensures frameSkippingMode == SkipXFramesEveryY && targetFrameRate == sourceFrameRate ==>
                framesToBeSkipped == [] && skipFrameNumber == 0 && totalFrames == 0
      ensures frameSkippingMode == SkipXFramesEveryY && targetFrameRate < sourceFrameRate ==>
                (skipFrameNumber, totalFrames) == Ratio.ReducedRatio(sourceFrameRate, targetFrameRate) &&
                0 < skipFrameNumber < totalFrames &&
                framesToBeSkipped == Pattern.DropPattern(skipFrameNumber, totalFrames)
    {
      if frameSkippingMode == SkipXFramesEveryY {
        framesToBeSkipped := [];
        var res, iSkip, iTotal := Ratio.LowestRatio(sourceFrameRate, targetFrameRate, 0, 0);
        if res {
          skipFrameNumber := iSkip;
          totalFrames := iTotal;
          if skipFrameNumber < totalFrames && skipFrameNumber > 0 {
            FillDropPattern(skipFrameNumber, totalFrames);
          } else {
            framesToBeSkipped := [];
          }
        }
      }
    }

    /** The two counted loops of Run: the drop positions are collected into
        a set, then one entry per cycle position is appended to the emptied
        pattern, 1 for a drop position and 0 otherwise. */
    method FillDropPattern(skip: nat, total: nat)
      requires 0 < skip < total && framesToBeSkipped == []
      modifies this`framesToBeSkipped
      ensures framesToBeSkipped == Pattern.DropPattern(skip, total)
    {
      var toBeSkipped := CollectDropPositions(skip, total);
      var toBePlayed: set<int> := {};
      var iCount: nat := 1;
      while iCount <= total
        invariant 1 <= iCount <= total + 1
        invariant framesToBeSkipped == Pattern.Indicator(toBeSkipped, iCount - 1)
      {
        Pattern.IndicatorExtend(toBeSkipped, iCount - 1);
        if iCount !in toBeSkipped {
          toBePlayed := toBePlayed + {iCount};
          framesToBeSkipped := framesToBeSkipped + [0];
        } else {
          framesToBeSkipped := framesToBeSkipped + [1];
        }
        iCount := iCount + 1;
      }
    }

    /** The first counted loop of Run: the 1-indexed drop positions
        round(k * total / skip) for k = 1..skip. */
    method CollectDropPositions(skip: nat, total: nat) returns (toBeSkipped: set<int>)
      requires 0 < skip < total
      ensures toBeSkipped == Pattern.DropPositionsUpTo(skip, skip, total)
      ensures |toBeSkipped| == skip
      ensures forall q :: q in toBeSkipped ==> 1 <= q <= total
    {
      var dRatio := total as real / skip as real;
      toBeSkipped := {};
      var iCount: nat := 1;
      while iCount <= skip
        invariant 1 <= iCount <= skip + 1
        invariant toBeSkipped == Pattern.DropPositionsUpTo(iCount - 1, skip, total)
      {
        var iToBeSkipped := Pattern.Round(iCount as real * dRatio);
        Pattern.DropPositionFromRatio(iCount, skip, total, dRatio);
        toBeSkipped := toBeSkipped + {iToBeSkipped};
        iCount := iCount + 1;
      }
      Pattern.DropPositionsDistinct(skip, skip, total);
      Pattern.DropPositionsEnds(skip, total);
    }

    /** Stopping the graph rewinds the cursor, drops the pattern and forgets
        the deadline, so the next timed sample seeds a fresh one. */
    method Stop()
      modifies this`currentFrame, this`framesToBeSkipped, this`isTimeSet
      ensures currentFrame == 0 && framesToBeSkipped == [] && !isTimeSet
      ensures CursorInRange()
    {
      currentFrame := 0;
      framesToBeSkipped := [];
      isTimeSet := false;
    }

    /** An accepted update assigns its field and then recomputes the skip
        ratio from the current skip and total counts; an unrecognised name
        fails and changes nothing. */
    method SetParameter(p: Parameter) returns (ok: bool)
      modifies this`skipFrameNumber, this`totalFrames, this`sourceFrameRate,
               this`targetFrameRate, this`frameSkippingMode, this`skipRatio
      ensures ok <==> !p.Unrecognised?
      ensures skipFrameNumber == (if p.SkipFrame? then p.count else old(skipFrameNumber))
      ensures totalFrames == (if p.TotalFrames? then p.count else old(totalFrames))
      ensures sourceFrameRate == (if p.SourceFrameRate? then p.rate else old(sourceFrameRate))
      ensures targetFrameRate == (if p.TargetFrameRate? then p.rate else old(targetFrameRate))
      ensures frameSkippingMode == (if p.Mode? then p.mode else old(frameSkippingMode))
      ensures skipRatio == (if ok then Duration.SkipRatio(skipFrameNumber, totalFrames) else old(skipRatio))
    {
      match p {
        case SkipFrame(n) => skipFrameNumber := n;
        case TotalFrames(n) => totalFrames := n;
        case SourceFrameRate(r) => sourceFrameRate := r;
        case TargetFrameRate(r) => targetFrameRate := r;
        case Mode(m) => frameSkippingMode := m;
        case Unrecognised => return false;
      }
      if totalFrames > 0 {
        skipRatio := skipFrameNumber as real / totalFrames as real;
      } else {
        skipRatio := 0.0;
      }
      return true;
    }
  }

  /** The part of a media type the output pin rewrites: the shape of its
      format block and the average frame duration it declares. */
  class MediaType {
    var formatType: Duration.FormatType
    var avgTimePerFrame: int

    constructor (formatType: Duration.FormatType, avgTimePerFrame: int)
      ensures this.formatType == formatType && this.avgTimePerFrame == avgTimePerFrame
    {
      this.formatType := formatType;
      this.avgTimePerFrame := avgTimePerFrame;
    }
  }

  /** The output pin; it reads the skip ratio of the filter it belongs to. */
  class FrameSkippingOutputPin {
    const filter: FrameSkippingFilter

    constructor (filter: FrameSkippingFilter)
      ensures this.filter == filter
    {
      this.filter := filter;
    }

    /** Divides the declared frame duration of a video-info media type by
        the filter's skip ratio, when that ratio is positive. */
    method AdjustAverageTimePerFrameInVideoInfoHeader(pmt: MediaType)
      modifies pmt`avgTimePerFrame
      ensures pmt.avgTimePerFrame ==
                Duration.AdjustedAvgTimePerFrame(old(pmt.avgTimePerFrame), pmt.formatType, filter.skipRatio)
    {
      if filter.skipRatio > 0.0 {
        if pmt.formatType == Duration.FormatVideoInfo {
          var duration := Duration.TruncateToInt(pmt.avgTimePerFrame as real / filter.skipRatio);
          pmt.avgTimePerFrame := duration;
        } else if pmt.formatType == Duration.FormatVideoInfo2 {
          var duration := Duration.TruncateToInt(pmt.avgTimePerFrame as real / filter.skipRatio);
          pmt.avgTimePerFrame := duration;
        }
      }
    }
  }
}
