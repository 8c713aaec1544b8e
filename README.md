# Frame-skipping filter: the frame-skip decision engine

This project models the decision core of the CSIR frame-skipping video filter
(`FrameSkippingFilter` and its output pin) and proves properties of it.

The filter decides for every media sample whether it is passed on or dropped,
in one of two modes:

- **Skip x frames every y** (mode 0). When the graph runs, `lowestRatio`
  reduces the source and target frame rates to the lowest ratio of `skip`
  dropped frames out of every `total`. `Run` then builds a cyclic 0/1 pattern
  with a drop at the 1-indexed positions `round(k * total / skip)` for
  k = 1..skip. `Transform` walks the pattern with a cursor that wraps at its end.
- **Achieve target rate** (mode 1). The first timed sample seeds a deadline one
  frame interval after it, and that sample is kept. A later sample is kept
  exactly when its time is past the deadline. The deadline then jumps forward
  by `ceil(gap / interval)` whole intervals, so it stays on the grid it was
  seeded on.

`Stop` rewinds the cursor, clears the pattern and forgets the deadline.
`SetParameter` assigns one field and then recomputes the skip ratio
`skip / total`. The output pin divides the average frame duration declared in a
`VIDEOINFOHEADER` or `VIDEOINFOHEADER2` by that ratio.

## Files

- `reals.dfy` (module `Reals`): order facts about multiplying reals by a
  positive factor, and cancelling a division, that the rounding, deadline
  and duration proofs share.
- `ratio.dfy` (module `Ratio`): the rate reduction.
  - The rates are natural numbers in tenths of a frame per second.
  - The reference `Gcd`.
  - C's `remainder` on integers.
  - The `while (true)` remainder loop, proved to end with the gcd.
  - `LowestRatio`, the method that models `lowestRatio`.
- `pattern.dfy` (module `Pattern`): the drop positions, and the pattern as an
  indicator sequence over them.
  - Its shape: length, count of ones, last entry.
  - The cursor, and the drops counted over whole cycles.
- `timebased.dfy` (module `TimeBased`): the deadline arithmetic of mode 1.
  - Seconds from 10^-7 s ticks, the frame interval, and the multiplier.
  - The deadline over a run of frames.
  - The grid, monotonicity, and rate-bound lemmas.
- `duration.dfy` (module `Duration`): the skip ratio, truncation toward zero,
  and the rewritten frame duration.
- `frameskipping.dfy` (module `FrameSkipping`): the filter as a class whose
  fields are the filter's private state; `Transform`, `Run` (with its two
  counted loops in `CollectDropPositions` and `FillDropPattern`), `Stop`, `SetParameter`; the output pin
  and the media type it rewrites.
- `scenarios.dfy` (module `Scenarios`): whole call sequences on one filter.
  - 30 fps to 24 fps in mode 0, and a time-based run at 30 fps.
  - Loops of `Transform` calls tied to the pattern and deadline folds: whole
    cycles drop exactly `skip` frames each, and a time-based run stays on its
    grid and under the target rate.
  - The pin's rewrite before and after the skip ratio is refreshed.
  - A restart.
  - A legal sequence that leaves the cursor past the end of a rebuilt pattern.

## Modelling choices

- Frame rates are `nat`s counting tenths of a frame per second. The
  reduction is "limited to 1 decimal", so this is exact.
  - `fmod(rate, 1) != 0` becomes `rate % 10 != 0`.
  - The 0.0001 fps tolerance test becomes `source == target`.
- Timestamps are integer ticks of 10^-7 s. Times in seconds and the frame
  interval are exact `real`s.
- `remainder` is IEEE's remainder: round to nearest, ties to even. It is
  written out exactly on integers.
- `round(k * dRatio)` is `floor(x + 0.5)` on exact reals. The two compile-time
  variants agree for positive values.
- Truncating casts (`static_cast<REFERENCE_TIME>`, `(unsigned int)`) are
  truncation toward zero, written out for negative quotients too.
- `Transform`'s result is a `Decision`: `Keep` is `S_OK`, `Drop` is `S_FALSE`,
  and `Failed(hr)` is a failed `GetTime` code handed back.
- A `Sample` carries what `Transform` learns of an `IMediaSample`:
  - whether its stream id is `AM_STREAM_MEDIA`;
  - the `GetTime` result code;
  - the start and stop times.
- `SetParameter`'s string parsing belongs to a settings library that is not
  part of this model.
  - A `Parameter` value is either one of the five registered names with its
    parsed value, or `Unrecognised`, which fails and changes nothing.

Points where the code's behaviour is modelled as written:

- The skip ratio is `skip / total`: the dropped share, not the kept share.
  - The ratio is recomputed only in `SetParameter`. `Run` overwrites `skip`
    and `total` without refreshing it, so the pin uses whatever counts were
    in place at the last `SetParameter`.
  - Setting a 30 fps source and a 24 fps target and then running leaves the
    ratio at 0 / 1 from the constructor's counts, and the pin rewrites
    nothing.
  - Once `SetParameter` runs again after `Run` has stored 1 / 5, the ratio is
    0.2. A 1/30 s frame is then declared five times longer, not 1.25 times
    (`Duration.ThirtyToTwentyFourDuration`,
    `Scenarios.DurationFollowsSetParameter`).
- `Run` rebuilds the pattern without rewinding the cursor; only `Stop` resets it.
  - `Transform` indexes the pattern at the cursor, so it requires the cursor to
    be in range when there is a pattern.
  - `Scenarios.CursorLeftBehind` shows a legal sequence after which the cursor
    is not in range: four frames into a 30 to 24 fps cycle, a new target of
    15 fps, then `Run`.
- Setting a new target rate recomputes only the skip ratio. It does not clear
  the time-set flag, so mode 1 keeps the old deadline. Each later `Transform`
  recomputes the interval from the current target.
- When the target is 0 and the source is not, `lowestRatio` computes
  `remainder(x, 0)`, which is NaN. It then divides by that NaN and casts the
  quotient to an integer. `LowestRatio` and `Run` in mode 0 therefore require
  `target != 0 || source == 0`.

## Model

| member | source | states |
|---|---|---|
| Ratio.GcdIsGreatestCommonDivisor | FrameSkippingFilter.cpp:417-434 | the reference gcd is positive, divides both operands, and is divisible by every common divisor |
| Ratio.IeeeRemainder | FrameSkippingFilter.cpp:420-421 | `remainder(x, y)` is x minus an integer multiple of y, lies in [-y/2, y/2], and on a tie the multiple is even |
| Ratio.CorrectedRemainder | FrameSkippingFilter.cpp:420-429 | a negative remainder corrected by adding the modulus back is the Euclidean remainder x % y |
| Ratio.RemainderLoop | FrameSkippingFilter.cpp:416-434 | the remainder loop terminates with one operand 0 and the other the gcd of the two scaled rates |
| Ratio.HasFraction | FrameSkippingFilter.cpp:408-411 | when neither rate has a fractional part, both are whole numbers of frames per second (multiples of ten tenths) |
| Ratio.Scaled | FrameSkippingFilter.cpp:408-416 | the rate the loop starts from is the rate itself, in tenths, when either rate has a fraction, and exactly a tenth of it, in whole frames per second, otherwise |
| Ratio.ReducedRatio | FrameSkippingFilter.cpp:435-445 | the scaled rates' difference and the scaled source, each divided by their gcd, give 0 < skip < total with skip / total = (source - target) / source |
| Ratio.ScaledPreservesOrder | FrameSkippingFilter.cpp:408-416 | scaling out the decimal keeps 0 < t < s and the proportion of the two rates |
| Ratio.ReducedRatioInLowestTerms | FrameSkippingFilter.cpp:435-445 | the reduced ratio has 0 < skip < total, gcd(skip, total) = 1, and skip * source = (source - target) * total |
| Ratio.LowestRatio | FrameSkippingFilter.cpp:393-451 | if the target exceeds the source, the call fails and leaves both outputs untouched; equal rates give 0 and 0; otherwise the reduced ratio in lowest terms |
| Pattern.Round | FrameSkippingFilter.cpp:232-236 | `round` for x >= 0 is the integer within half a unit of x, halves rounding up |
| Pattern.DropPosition | FrameSkippingFilter.cpp:229-238 | the k-th drop position is the integer nearest k * total / skip, stated without division |
| Pattern.DropPattern | FrameSkippingFilter.cpp:224-253 | the pattern Run builds has total entries, each 0 or 1, and a 1 exactly at the 0-indexed entries i whose position i + 1 is a drop position |
| Pattern.DropsEvenlySpaced | FrameSkippingFilter.cpp:226-238 | consecutive drop positions are at least one apart and within one of total / skip |
| Pattern.DropPositionsEnds | FrameSkippingFilter.cpp:229-238 | the first drop position is at least 1 and the skip-th is exactly total |
| Pattern.DropPositionsDistinct | FrameSkippingFilter.cpp:229-238 | the first n drop positions are n distinct values between 1 and the n-th position |
| Pattern.IndicatorCount | FrameSkippingFilter.cpp:240-253 | the 0/1 sequence over positions in 1..n has exactly as many ones as there are positions |
| Pattern.DropPatternShape | FrameSkippingFilter.cpp:224-253 | the pattern has total entries, each 0 or 1, exactly skip ones (at the drop positions), and a 1 last |
| Pattern.NextCursor | FrameSkippingFilter.cpp:152-156 | the cursor moves on by one modulo the pattern length and stays inside the pattern |
| Pattern.CursorAfterPrefix | FrameSkippingFilter.cpp:152-156 | from cursor 0, k < length frames leave the cursor at k, and a whole cycle brings it back to 0 |
| Pattern.DropsAfterSplit | FrameSkippingFilter.cpp:152-160 | a run of a + b frames is a run of a frames followed by b more, in cursor and in drops |
| Pattern.DropsOverPrefix | FrameSkippingFilter.cpp:152-160 | the first k frames from cursor 0 drop as many frames as the first k pattern entries hold ones |
| Pattern.DropsOverWholeCycles | FrameSkippingFilter.cpp:147-163 | m whole cycles from cursor 0 drop m times the pattern's ones and end at cursor 0 |
| Pattern.CyclesDropExactlySkip | FrameSkippingFilter.cpp:224-253 | for a pattern Run builds, every m whole cycles drop exactly m * skip frames |
| TimeBased.Seconds | FrameSkippingFilter.cpp:114 | a timestamp in seconds is the tick count over 10^7 |
| TimeBased.FrameInterval | FrameSkippingFilter.cpp:107 | the frame interval is positive and is the inverse of the target rate |
| TimeBased.Ceil | FrameSkippingFilter.cpp:124 | `ceil(x)` is the integer in [x, x + 1) |
| TimeBased.CeilCoversGap | FrameSkippingFilter.cpp:124 | for a positive gap, ceil(gap / interval) intervals cover the gap and one fewer does not |
| TimeBased.Multiplier | FrameSkippingFilter.cpp:124-125 | the multiplier is the least m >= 1 with deadline + m * interval >= now |
| TimeBased.NextDeadline | FrameSkippingFilter.cpp:122-127 | after a kept frame the deadline rises strictly, to a value in [now, now + interval) |
| TimeBased.DeadlineStep | FrameSkippingFilter.cpp:122-132 | a sample at or before the deadline leaves it unchanged; a later one raises it strictly, to a value in [now, now + interval) |
| TimeBased.StepOnGrid | FrameSkippingFilter.cpp:122-132 | one frame moves the deadline by a whole number of intervals (zero when it is dropped) |
| TimeBased.DeadlineStaysOnGrid | FrameSkippingFilter.cpp:119-133 | after any run of frames the deadline is the starting deadline plus a whole number of intervals |
| TimeBased.KeptWithinSteps | FrameSkippingFilter.cpp:122-127 | every kept frame moves the deadline by at least one interval |
| TimeBased.DeadlineCoversRun | FrameSkippingFilter.cpp:119-133 | the deadline never moves back and ends at or after every frame time of the run |
| TimeBased.DeadlineNearLatest | FrameSkippingFilter.cpp:119-133 | unless no frame was kept, the final deadline is less than one interval after the latest frame time |
| TimeBased.NothingKeptLeavesDeadline | FrameSkippingFilter.cpp:129-132 | a run of dropped frames leaves the deadline where it was |
| TimeBased.RunExtended | FrameSkippingFilter.cpp:119-133 | one more sample at the end of a run takes one more deadline step from where the run left it, in deadline, steps and kept count |
| TimeBased.KeptFramesRespectTargetRate | FrameSkippingFilter.cpp:111-133 | after the seed, k kept frames need more than k intervals: seed + k * interval is before the latest frame time |
| Duration.SkipRatio | FrameSkippingFilter.cpp:329-332 | the skip ratio is skip / total (0 for total 0); it lies in [0, 1] when skip <= total and is positive exactly when both counts are |
| Duration.TruncateToInt | FrameSkippingFilter.cpp:381 | the cast truncates toward zero: keeps the sign and stays within one unit of x, on the side of zero |
| Duration.TruncatedQuotientBounds | FrameSkippingFilter.cpp:381 | the truncated quotient a / ratio times ratio lies within one ratio of a, on the side of zero |
| Duration.AdjustedAvgTimePerFrame | FrameSkippingFilter.cpp:374-391 | for the two video-info shapes with a positive ratio, the duration becomes trunc(avg / ratio), bounded on both sides; otherwise it is unchanged |
| Duration.AdjustmentNeverShortens | FrameSkippingFilter.cpp:376-389 | with a ratio in (0, 1], a non-negative declared duration never shrinks |
| Duration.SkipRatioOfReducedRatio | FrameSkippingFilter.cpp:218-222 | the skip ratio of a reduced pair is the dropped share of the source rate, (source - target) / source |
| Duration.ThirtyToTwentyFourDuration | FrameSkippingFilter.cpp:381 | for 30 to 24 fps the ratio is 1/5, and a 1/30 s frame (333333 ticks) is declared as 1666665 ticks |
| FrameSkipping.FrameSkippingFilter.constructor | FrameSkippingFilter.cpp:43-59 | the fields start at the constructor's initializer-list values |
| FrameSkipping.FrameSkippingFilter.Transform | FrameSkippingFilter.cpp:92-168 | non-media samples are kept. Mode 0: an empty pattern keeps; otherwise the result is drop iff pattern[cursor] == 1, and the cursor moves on modulo the length. Mode 1: target 0 keeps with no change; a GetTime failure returns its code; the first timed sample is kept and seeds the deadline; later samples are kept iff past the deadline, which then rises into [now, now + interval). Unknown modes keep |
| FrameSkipping.FrameSkippingFilter.Run | FrameSkippingFilter.cpp:211-263 | mode 0: the pattern is cleared; target > source leaves it empty with skip/total unwritten; equal rates give 0/0 and no pattern; otherwise skip/total are the reduced ratio and the pattern is its drop pattern. Other modes touch nothing |
| FrameSkipping.FrameSkippingFilter.FillDropPattern | FrameSkippingFilter.cpp:226-253 | the two counted loops append exactly the drop pattern of skip and total to the emptied vector |
| FrameSkipping.FrameSkippingFilter.CollectDropPositions | FrameSkippingFilter.cpp:226-238 | the first loop collects exactly the drop positions round(k * total / skip) for k = 1..skip: skip distinct positions, all between 1 and total |
| FrameSkipping.FrameSkippingFilter.Stop | FrameSkippingFilter.cpp:265-271 | cursor 0, empty pattern, time-set flag cleared |
| FrameSkipping.FrameSkippingFilter.SetParameter | FrameSkippingFilter.cpp:324-335 | a recognised update assigns its field only and sets the skip ratio to SkipRatio(skip, total); an unrecognised one fails and changes nothing |
| FrameSkipping.MediaType.constructor | FrameSkippingFilter.cpp:378-388 | a media type holds the shape of its format block and the average frame duration that block declares |
| FrameSkipping.FrameSkippingOutputPin.AdjustAverageTimePerFrameInVideoInfoHeader | FrameSkippingFilter.cpp:374-391 | the declared duration becomes AdjustedAvgTimePerFrame of the old one, the format shape and the filter's skip ratio |
| Scenarios.RatioModeExample | FrameSkippingFilter.cpp:147-163 | 30 fps to 24 fps builds [0, 0, 0, 0, 1], and six frames are kept, kept, kept, kept, dropped, kept |
| Scenarios.ThirtyToTwentyFourPattern | FrameSkippingFilter.cpp:224-253 | 30 to 24 fps reduces to 1 of 5, whose pattern is [0, 0, 0, 0, 1] |
| Scenarios.CycleStep | FrameSkippingFilter.cpp:149-162 | one frame through [0, 0, 0, 0, 1] at cursor c is dropped only at c = 4, and the cursor wraps there |
| Scenarios.TimeBasedExample | FrameSkippingFilter.cpp:101-145 | at 30 fps, samples at 0, 0.01, 0.04, 0.05 and 0.07 s are kept, dropped, kept, dropped, kept |
| Scenarios.ThirtyFpsDeadlines | FrameSkippingFilter.cpp:121-127 | the interval is 1/30 s, and a frame at 0.04 s moves the 1/30 s deadline to 2/30 s |
| Scenarios.RestartKeepsFirstSample | FrameSkippingFilter.cpp:265-271 | after Stop, the first timed sample in mode 1 is kept |
| Scenarios.CursorLeftBehind | FrameSkippingFilter.cpp:152-156 | Run after a rate change can leave the cursor at or past the end of the new, non-empty pattern |
| Scenarios.CountDrops | FrameSkippingFilter.cpp:147-163 | n media samples through Transform in mode 0 move the cursor to CursorAfter and drop DropsAfter of them, from the starting cursor |
| Scenarios.RatioFilter | FrameSkippingFilter.cpp:211-253 | after SetParameter of a source and a lower target and Run, a new filter holds the reduced ratio's drop pattern with its cursor at the start |
| Scenarios.WholeCyclesThroughTransform | FrameSkippingFilter.cpp:211-263 | after SetParameter of the two rates and Run, the first m * total samples through Transform drop exactly m * skip |
| Scenarios.KeepRun | FrameSkippingFilter.cpp:119-133 | once the deadline is seeded, a run of timed samples through Transform leaves the deadline at DeadlineAfter and keeps KeptAfter of them |
| Scenarios.SeededFilter | FrameSkippingFilter.cpp:112-117 | the first timed sample of a new filter in mode 1 seeds the deadline one frame interval after its own time |
| Scenarios.TargetRateThroughTransform | FrameSkippingFilter.cpp:101-145 | through Transform, the deadline stays on the grid the first sample seeds, and the seed plus one interval per later kept sample is before the latest sample time |
| Scenarios.DurationFollowsSetParameter | FrameSkippingFilter.cpp:324-335 | right after Run the pin leaves a 1/30 s frame at 333333 ticks; after one more SetParameter it declares 1666665 |
| Scenarios.ThirtyToFifteenRatio | FrameSkippingFilter.cpp:435-445 | 30 to 15 fps reduces to 1 of 2 |

## Left out

- DirectShow and COM plumbing has no decision logic, so it is not modelled:
  - `CreateInstance`, `NonDelegatingQueryInterface`, `GetPin`, `GetPages`;
  - `CheckInputType`, which only compares GUIDs;
  - the `EnumMediaTypes` loop and the `SetMediaType` forwarding, which both
    call the modelled duration rewrite;
  - the base-class `Run` and `Stop` calls.
- The settings library (`CSettingsInterface`) is not part of this model.
  - Its string parsing is replaced by the `Parameter` datatype.
  - It is not known whether `addParameter` writes its 0 defaults into the
    fields. The constructor takes the initializer-list values, and mode 0 and
    source rate 0 for the two fields the list leaves out.
- The property page (`FrameSkippingProperties.h`) and `VersionInfo.h` hold UI
  and version strings, with no engine logic.
- IEEE double rounding is not modelled: `fmod`, `remainder`, `1 / rate`, the
  divisions and `round` are exact. Where k * total / skip is exactly a half,
  the double product can fall just below it. For skip 22, total 49 and k 11,
  `11 * (49.0 / 22)` is 24.499999999999996 in double arithmetic, so the code
  drops position 24 where `DropPattern` drops 25. Only that drop's place
  moves: the number of drops and the final 1 stay the same.
- Rates with more than one decimal place cannot be written in tenths. The
  code's reduction would be approximate for them.
- The time-based mode accepts any positive target rate, such as 29.97 fps.
  The `TimeBased` lemmas hold for any positive frame interval. Only the
  class's `targetFrameRate`, a natural number in tenths, limits mode-1
  targets to one decimal place.
- Overflows are not modelled: the `int` cast of the multiplier, `REFERENCE_TIME`,
  and the `unsigned` counters are unbounded integers.
- The disabled `#if 0` block in `Transform` is not modelled.
- The `assert(false)` for an unknown mode is modelled as the release build's
  "keep".
- Whether `GetTime` writes the start and stop times when it fails is not
  known, so on failure the model leaves them as they were.
- FrameSkipping.FrameSkippingFilter.Transform: requires, in mode 0 with a
  non-empty pattern, that the cursor indexes the pattern. Otherwise the source
  reads past the end of the vector (`Scenarios.CursorLeftBehind`).
- Ratio.LowestRatio: requires a non-zero target unless the source is 0 too.
  For a zero target the source computes `remainder(x, 0)`, which is NaN, and
  then casts it.
- FrameSkipping.FrameSkippingFilter.Run: requires the same of the rates in
  mode 0, for the same reason.
