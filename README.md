# genkiml windowed resampling and inference trigger, in Dafny

This project models the part of genkiml that turns a live, irregularly
timed, multi-channel sample stream into the fixed-shape buffer handed to an
inference engine. It has three parts:

- `linspace`, which builds the control grid: `WindowSize` evenly spaced
  relative timestamps ending at 0.
- The resampler: `lerp`, `interp_1d`, `interpolate` and `transpose`. It
  aligns the window's timestamps so that the newest one is 0. It then walks
  one cursor over them to find, for every control time, a bracketing pair of
  raw samples, and interpolates linearly between that pair, channel by
  channel.
- `WindowedModel::push_sample`. It keeps a FIFO window of at most
  `WindowSize` entries: one deque per channel plus one deque of timestamps.
  It fires an inference when the window is full and at least the inference
  interval has passed since the previous one.

The repository has two variants, and both are modelled:

| module | header | bracket test | control grid | buffer for `infer` |
|---|---|---|---|---|
| `Preprocessing`, `WindowedModel` | `genkiml/source/preprocessing.h`, `genkiml/include/genkiml/windowed_model.h` | within `1e-5` of the pair | spaced by `1 / sample_rate_hz` | resampled rows, transposed (time-major) |
| `LegacyWindowedModel` | `genkiml/source/windowed_model.h` | exact | spaced by the inference interval | raw window, channel after channel |

Shared pieces live in their own modules:

- `ControlGrid`: `linspace`. Both headers define it with the same body.
- `Preprocessing.Lerp`: `lerp`. The older header defines its own copy
  (genkiml/source/windowed_model.h:28-32) with the same body, so both
  variants use this one function.
- `SlidingWindow`: the eviction and trigger policy on values. Both classes
  keep the same invariant, `HoldsLatest`. The window holds the latest
  `WindowSize` pushes in push order. `prev_inference_ts` is the value that
  the trigger rule, replayed over every pushed timestamp from a fresh model,
  arrives at.
- `Wrappers`: `Option`.

Values and timestamps are `real`. The tolerance `1e-5` is the constant
`Preprocessing.Eps`. The model's state is the source's own: a `class` per
`WindowedModel`, an array of per-channel sequences for
`std::array<std::deque<…>, NumSignals>`, and a sequence for the timestamp
deque. Two ghost fields record every pushed timestamp and sample so the
invariant can be stated. `Model::infer` is not modelled: `PushSample`
returns `Some(buffer)` where the source calls `infer(buffer)`, and `None`
where it returns an empty optional.

A `requires` clause stands for an `assert` of the source. `PushSample`
requires the resampler's asserts to hold on the window whenever the push
fires, because the source asserts them at that point.

Three behaviours of the code are easy to miss. The model keeps each of
them as the code has it:

- `prev_inference_ts` starts at 0, not at a "never inferred" value. The first
  inference therefore needs a timestamp of at least the interval. See
  `SlidingWindow.FirstFireNeedsInterval` and `SlidingWindow.FillingPushFires`.
- The older variant copies the resampled rows into the buffer and then
  overwrites the whole buffer with the raw channels. The model therefore
  receives the raw window in channel-major order, not resampled values. See
  `LegacyWindowedModel.InferenceInput` and
  `LegacyWindowedModel.BufferIsRawWindow`.
- In the tolerant resampler, the value at a control time equal to a raw
  timestamp is guaranteed to be that raw sample when the timestamp is more
  than `1e-5` after its predecessor (`Preprocessing.ResampledAtRawTimestamp`);
  with a closer predecessor it can miss the raw sample
  (`Preprocessing.ToleranceCanMissRawSample`). A
  control time accepted by the tolerance just past a pair can be
  extrapolated beyond the pair's samples when they differ
  (`Preprocessing.ToleranceCanExtrapolate`).
  The exact variant has both properties without conditions.

## Model

| member | source | states |
|---|---|---|
| ControlGrid.Linspace | genkiml/include/genkiml/windowed_model.h:12-22 | needs `num > 1`; exactly `num` values, the first `min`, the last `max` |
| ControlGrid.LinspaceStep | genkiml/include/genkiml/windowed_model.h:20 | consecutive values differ by exactly `(max - min) / (num - 1)`, the property tests/windowed_model.cpp:14-21 checks |
| ControlGrid.LinspaceGrowing | genkiml/include/genkiml/windowed_model.h:20 | strictly increasing whenever `min < max` |
| WindowedModel.ControlTimes | genkiml/include/genkiml/windowed_model.h:34 | `ts_control` has `WindowSize` elements |
| WindowedModel.ControlTimesEnds | genkiml/include/genkiml/windowed_model.h:34 | `ts_control` starts `WindowSize - 1` sample periods before 0 and ends at 0 |
| WindowedModel.ControlTimesStep | genkiml/include/genkiml/windowed_model.h:34 | consecutive control times are one sample period `1 / sample_rate_hz` apart |
| WindowedModel.ControlTimesGrowing | genkiml/include/genkiml/windowed_model.h:34 | for a positive rate the grid is strictly increasing, as `interp_1d` asserts |
| WindowedModel.InferenceInput | genkiml/include/genkiml/windowed_model.h:64-69 | the buffer has `WindowSize * NumSignals` values and is the memory order of the transpose of `interpolate`'s rows |
| WindowedModel.ResampledExample | genkiml/source/preprocessing.h:60-84 | at 2 Hz, values `[0, 2, 4, 10]` at times `[0, 1, 2, 3]` resample to `[3, 4, 7, 10]` |
| WindowedModel.WindowedModel.constructor | genkiml/include/genkiml/windowed_model.h:31-36 | empty window, `prev_inference_ts == 0`, `ts_control` from the sample rate, invariant established |
| WindowedModel.WindowedModel.GetNumSamples | genkiml/include/genkiml/windowed_model.h:38-43 | needs every channel as long as the timestamps; returns that common length |
| WindowedModel.WindowedModel.PopFront | genkiml/include/genkiml/windowed_model.h:47-53 | drops the front of every channel and of the timestamps, nothing else |
| WindowedModel.WindowedModel.PushBack | genkiml/include/genkiml/windowed_model.h:55-58 | appends `sample[k]` to channel `k` and the timestamp to the timestamps, nothing else |
| WindowedModel.WindowedModel.Advance | genkiml/include/genkiml/windowed_model.h:47-58 | the timestamps and every channel become the one-step slide of their old contents: front evicted only when full, new entry appended |
| WindowedModel.WindowedModel.Trigger | genkiml/include/genkiml/windowed_model.h:60-71 | fires iff the window is full and `back - prev_inference_ts >= interval`; then `prev_inference_ts` becomes the newest timestamp and the result is the time-major resampled buffer; otherwise nothing changes |
| WindowedModel.WindowedModel.WouldFire | genkiml/include/genkiml/windowed_model.h:60 | the trigger test of `push_sample` on the state before a push: the window is or becomes full and the timestamp is at least the interval after `prev_inference_ts` (`SlidingWindow.FiresOn`); `PushSample` fires iff it holds |
| WindowedModel.WindowedModel.PushSample | genkiml/include/genkiml/windowed_model.h:45-75 | evicts only when full, appends, keeps the window the latest `WindowSize` pushes; result present iff the trigger rule holds; `prev_inference_ts` moves to the timestamp iff it fires; the result is the time-major resampled window |
| SlidingWindow.Slide | genkiml/include/genkiml/windowed_model.h:47-58 | the window after one push: the front is evicted only when the window holds `WindowSize` entries, then the new entry is appended (`SlideKeepsLatest`, `LastN` state what it keeps) |
| SlidingWindow.Initial | genkiml/include/genkiml/windowed_model.h:81 | the trigger state of a freshly constructed model: an empty window and `prev_inference_ts` value-initialised to 0 (genkiml/source/windowed_model.h:164 is the same); `State` starts from it, and `PrevBeforeFirstFire`, `FirstFireNeedsInterval` follow from it |
| SlidingWindow.NextLen | genkiml/include/genkiml/windowed_model.h:47-58 | the window length after one push: one more until it reaches `WindowSize`, then `WindowSize` again, since a full window evicts before it appends (`StateLen`) |
| SlidingWindow.FiresOn | genkiml/include/genkiml/windowed_model.h:60 | a push fires iff it fills or keeps the window full and its timestamp is at least the interval after `prev_inference_ts` (genkiml/source/windowed_model.h:132-134 has the same rule) |
| SlidingWindow.Push | genkiml/include/genkiml/windowed_model.h:60-62 | the trigger state after one push: the window length grows up to `WindowSize`, and `prev_inference_ts` becomes the timestamp iff the push fires (`StateStep`) |
| SlidingWindow.State | genkiml/include/genkiml/windowed_model.h:60-62 | the trigger state reached by replaying every pushed timestamp from a fresh model; the invariant `HoldsLatest` ties the class fields to it |
| SlidingWindow.FiresAt | genkiml/include/genkiml/windowed_model.h:60 | the push of the `p`-th timestamp returns a result: the trigger test on the state replayed over the earlier pushes; `NoResultUntilFull`, `StateStep`, `PrevBeforeFirstFire`, `PrevAfterFire`, `TriggerCadence`, `FirstFireNeedsInterval` and `FillingPushFires` are stated with it |
| SlidingWindow.LastN | genkiml/include/genkiml/windowed_model.h:47-58 | the window after `n` pushes holds `min(n, WindowSize)` entries |
| SlidingWindow.SlideKeepsLatest | genkiml/include/genkiml/windowed_model.h:47-58 | evict-when-full then append keeps exactly the latest `WindowSize` pushes, in order |
| SlidingWindow.SlideEach | genkiml/include/genkiml/windowed_model.h:49-56 | one push into every channel keeps the channel count |
| SlidingWindow.StateLen | genkiml/include/genkiml/windowed_model.h:47-58 | after `n` pushes the trigger sees a window of `min(n, WindowSize)` |
| SlidingWindow.NoResultUntilFull | genkiml/include/genkiml/windowed_model.h:60 | no push fires before the window is full |
| SlidingWindow.StateStep | genkiml/include/genkiml/windowed_model.h:60-62 | a push moves `prev_inference_ts` to its timestamp exactly when it fires |
| SlidingWindow.PrevBeforeFirstFire | genkiml/include/genkiml/windowed_model.h:81 | until the first inference `prev_inference_ts` stays 0 |
| SlidingWindow.PrevAfterFire | genkiml/include/genkiml/windowed_model.h:60-62 | between two inferences `prev_inference_ts` is the timestamp of the earlier one |
| SlidingWindow.TriggerCadence | genkiml/include/genkiml/windowed_model.h:60-62 | consecutive inferences are at least the interval apart in stream time |
| SlidingWindow.FirstFireNeedsInterval | genkiml/include/genkiml/windowed_model.h:60-62 | the first inference happens at a timestamp of at least the interval |
| SlidingWindow.FillingPushFires | genkiml/include/genkiml/windowed_model.h:60-62 | the push that fills the window fires iff its timestamp is at least the interval |
| SlidingWindow.HoldsLatest | genkiml/include/genkiml/windowed_model.h:45-62 | the window invariant of both classes: the timestamps and every channel are the latest `WindowSize` pushes in push order and as long as each other, and `prev_inference_ts` is what the trigger rule, replayed over every pushed timestamp, arrives at (`State`); `PushKeepsLatest` shows each push keeps it |
| SlidingWindow.PushKeepsLatest | genkiml/include/genkiml/windowed_model.h:45-62 | one push keeps the window invariant: latest pushes in order, equal channel lengths, trigger state replayed |
| Preprocessing.Lerp | genkiml/source/preprocessing.h:10-14 | `lerp` as a line through `(t_a, a)` and `(t_b, b)`, defined for `t_a != t_b`; also the older header's copy at genkiml/source/windowed_model.h:28-32 (`LerpAtEnds`, `LerpBounded` state its properties) |
| Preprocessing.FloatEq | genkiml/source/preprocessing.h:26 | `float_eq`: two values differ by at most `1e-5` |
| Preprocessing.IsGrowing | genkiml/source/preprocessing.h:19-24 | `is_growing`: every element is strictly below its successor (`GrowingPairwise` extends this to any two positions) |
| Preprocessing.SpanPre | genkiml/source/preprocessing.h:31-32 | the corrected span asserts: the grid starts no more than `1e-5` before the first raw timestamp and ends no more than `1e-5` after the last; line 31 as written, line 32 with its tolerance clause comparing the last elements (`BracketsExist` shows they suffice) |
| Preprocessing.AsWrittenSpanPre | genkiml/source/preprocessing.h:31-32 | the span asserts as written, whose upper-bound tolerance clause compares the first elements (`AsWrittenSpanAdmitsUnbracketed` shows they do not suffice) |
| Preprocessing.Between | genkiml/source/preprocessing.h:39-42 | a time brackets by a pair when it lies in the pair's span or within `1e-5` of either end (`FirstBracketFromIs`, `ResampledNearBracket`) |
| Preprocessing.Concat | genkiml/include/genkiml/windowed_model.h:68-69 | the values of a nested array in memory order, row after row, as `memcpy` copies them (`ConcatLength`, `ConcatAt`) |
| Preprocessing.GrowingPairwise | genkiml/source/preprocessing.h:19-24 | a sequence increasing at each step is increasing between any two positions |
| Preprocessing.LerpAtEnds | genkiml/source/preprocessing.h:10-14 | `lerp` gives `a` at `t_a` and `b` at `t_b` |
| Preprocessing.LerpBounded | genkiml/source/preprocessing.h:10-14 | for `t_a <= t <= t_b`, `lerp` lies between `a` and `b` |
| Preprocessing.FirstBracketFrom | genkiml/source/preprocessing.h:44-48 | the search never moves the cursor back |
| Preprocessing.FirstBracketFromIs | genkiml/source/preprocessing.h:44-48 | the search stops at the first pair that brackets the time |
| Preprocessing.FirstBracketFromFound | genkiml/source/preprocessing.h:44-48 | from a pair starting at most `1e-5` above `t`, on a grid reaching `t - 1e-5`, the search stops inside `ts` at a bracketing pair |
| Preprocessing.FirstBracketSkipsPassed | genkiml/source/preprocessing.h:44-48 | resuming from a passed pair finds the same pair as searching from the start |
| Preprocessing.ResamplePre | genkiml/source/preprocessing.h:28-32 | the asserts of `interp_1d` on the timestamps and the grid: both strictly increasing, of equal length, the grid inside the span of `ts` up to `1e-5` (line 32 with the last elements compared, `SpanPre`), plus at least two timestamps, which the source reads but does not assert; `BracketsExist` shows these keep the cursor inside `ts` |
| Preprocessing.Interp1dPre | genkiml/source/preprocessing.h:28-32 | `ResamplePre` plus the assert that `samples` is as long as `ts`; `Interp1d` and `Resampled` require it |
| Preprocessing.BracketsExist | genkiml/source/preprocessing.h:28-32 | under the asserts, every control time has a bracketing pair, so `ts[ts_idx + 1]` is never read out of range |
| Preprocessing.ResampleAt | genkiml/source/preprocessing.h:44-54 | the value at one control time: `lerp` over the first pair that brackets it, the pair the cursor stops at (`FirstBracketFromIs`, `ResampledNearBracket`) |
| Preprocessing.Resampled | genkiml/source/preprocessing.h:34-57 | one value per control time |
| Preprocessing.Interp1d | genkiml/source/preprocessing.h:16-58 | under its asserts (`Interp1dPre`), `interp_1d` with its single monotone cursor returns `lerp` over the first bracketing pair of every control time |
| Preprocessing.ResampledNearBracket | genkiml/source/preprocessing.h:39-54 | each output is `lerp` over a consecutive pair whose span, widened by `1e-5`, contains the control time |
| Preprocessing.FirstBracketMonotone | genkiml/source/preprocessing.h:44-48 | a later time never selects an earlier pair |
| Preprocessing.CursorNeverDecreases | genkiml/source/preprocessing.h:34-48 | across the control grid the selected pair never moves back |
| Preprocessing.ResampledAtRawTimestamp | genkiml/source/preprocessing.h:39-54 | a control time equal to a raw timestamp more than `1e-5` after its predecessor yields that raw sample |
| Preprocessing.ToleranceCanMissRawSample | genkiml/source/preprocessing.h:39-48 | with raw timestamps closer than `1e-5`, exactness at a raw timestamp can fail: for samples `[0, 1, 5]` at `ts = [0, 1, 1.000001]`, grid `[0, 0.5, 1.000001]`, the last control time is accepted by the first pair and the result is not `5` |
| Preprocessing.ResampledBounded | genkiml/source/preprocessing.h:50-54 | when the selected pair contains the control time, the output lies between that pair's samples |
| Preprocessing.ToleranceCanExtrapolate | genkiml/source/preprocessing.h:39-54 | a time accepted by tolerance past a pair's end can be extrapolated beyond both of its samples when they differ: for samples `[0, 1, 5]` at `ts = [0, 1, 1.000001]`, grid `[0, 0.5, 1.000001]`, the last value exceeds `max(0, 1)` |
| Preprocessing.AsWrittenSpanAdmitsUnbracketed | genkiml/source/preprocessing.h:31-32 | the upper-bound assert as written admits a grid ending past `ts`, with a control time that has no bracketing pair |
| Preprocessing.Align | genkiml/source/preprocessing.h:68-72 | aligned timestamps keep their count and the newest is 0 |
| Preprocessing.AlignKeepsGaps | genkiml/source/preprocessing.h:68-72 | alignment keeps every gap, and so strict increase, in both directions |
| Preprocessing.InterpolatePre | genkiml/source/preprocessing.h:65-71 | the asserts of `interpolate`: every channel as long as `ts` and `ts` as long as the grid; `ts` non-empty, since `ts.back()` is read; and, when there is a channel, `ResamplePre` on the aligned timestamps, which the call of `interp_1d` asserts |
| Preprocessing.Interpolated | genkiml/source/preprocessing.h:60-84 | one row per channel, each `WindowSize` long |
| Preprocessing.Interpolate | genkiml/source/preprocessing.h:60-84 | under its asserts (`InterpolatePre`), row `k` is `interp_1d` of channel `k` over the aligned timestamps |
| Preprocessing.IsTransposeOf | genkiml/source/preprocessing.h:93 | the transpose relation: `out` is `M` by `N` for an `N` by `M` input and `out[j][i] == in[i][j]`, as the assignment in the loop writes it; `Transpose` ensures it, `Transposed` satisfies it, `TransposeUnique` shows it determines the result |
| Preprocessing.Transpose | genkiml/source/preprocessing.h:86-96 | the result is `M` by `N` and `ret[j][i] == in[i][j]` |
| Preprocessing.Transposed | genkiml/source/preprocessing.h:86-96 | the reference transpose satisfies the same relation |
| Preprocessing.TransposeTwice | genkiml/source/preprocessing.h:86-96 | transposing twice gives back the input |
| Preprocessing.TransposeUnique | genkiml/source/preprocessing.h:86-96 | the transpose of an array is unique |
| Preprocessing.ConcatLength | genkiml/include/genkiml/windowed_model.h:68-69 | a copy of an `N` by `W` array in memory order has `N * W` values |
| Preprocessing.ConcatAt | genkiml/include/genkiml/windowed_model.h:68-69 | element `c` of row `r` sits at `r * W + c` |
| Preprocessing.TimeMajorLayout | genkiml/include/genkiml/windowed_model.h:64-69 | in the buffer, sample `t` of channel `s` sits at `t * NumSignals + s` |
| LegacyWindowedModel.Within | genkiml/source/windowed_model.h:55 | the exact bracket test: the time lies in the pair's closed span, with no tolerance (`FirstPairFromFound`) |
| LegacyWindowedModel.FirstPairFrom | genkiml/source/windowed_model.h:55-59 | the exact search never moves the cursor back |
| LegacyWindowedModel.FirstPairFromFound | genkiml/source/windowed_model.h:55-59 | from a pair starting at or below `t`, on a grid reaching `t`, the search stops inside `ts` at a pair containing `t` |
| LegacyWindowedModel.FirstPairSkipsPassed | genkiml/source/windowed_model.h:55-59 | resuming from a passed pair finds the same pair as searching from the start |
| LegacyWindowedModel.FirstPairMonotone | genkiml/source/windowed_model.h:55-59 | a later time never selects an earlier pair |
| LegacyWindowedModel.ExactCursorNeverDecreases | genkiml/source/windowed_model.h:50-59 | across the control grid the selected pair never moves back, so one forward cursor finds every pair |
| LegacyWindowedModel.ExactResamplePre | genkiml/source/windowed_model.h:44-48 | the asserts of this `interp_1d`: both sequences strictly increasing, of equal length, the grid inside the span of `ts` with no tolerance, plus at least two timestamps, which the source reads but does not assert; `PairsExist` shows these keep the cursor inside `ts` |
| LegacyWindowedModel.ExactInterp1dPre | genkiml/source/windowed_model.h:44-48 | `ExactResamplePre` plus the assert that `samples` is as long as `ts`; `Interp1d` and `ExactResampled` require it |
| LegacyWindowedModel.PairsExist | genkiml/source/windowed_model.h:44-48 | under the asserts every control time lies in some pair, so the cursor stays inside `ts` |
| LegacyWindowedModel.ExactResampleAt | genkiml/source/windowed_model.h:55-65 | the value at one control time: `lerp` over the first pair containing it, the pair the exact cursor stops at (`ExactResampledBounded`, `ExactResampledAtRawTimestamp`) |
| LegacyWindowedModel.ExactResampled | genkiml/source/windowed_model.h:53-66 | one value per control time |
| LegacyWindowedModel.Interp1d | genkiml/source/windowed_model.h:34-69 | under its asserts (`ExactInterp1dPre`), the exact `interp_1d` returns `lerp` over the first pair containing every control time |
| LegacyWindowedModel.ExactResampledBounded | genkiml/source/windowed_model.h:53-65 | every output lies between the samples of a pair containing its control time |
| LegacyWindowedModel.ExactResampledAtRawTimestamp | genkiml/source/windowed_model.h:53-65 | a control time equal to a raw timestamp yields that raw sample |
| LegacyWindowedModel.ExactInterpolatePre | genkiml/source/windowed_model.h:76-81 | the asserts of this `interpolate`: every channel as long as `ts` and `ts` as long as the grid; `ts` non-empty, since `ts.back()` is read; and, when there is a channel, `ExactResamplePre` on the aligned timestamps |
| LegacyWindowedModel.ExactInterpolated | genkiml/source/windowed_model.h:71-93 | one row per channel, each `WindowSize` long |
| LegacyWindowedModel.Interpolate | genkiml/source/windowed_model.h:71-93 | under its asserts (`ExactInterpolatePre`), row `k` is the exact `interp_1d` of channel `k` over the aligned timestamps |
| LegacyWindowedModel.ControlTimes | genkiml/source/windowed_model.h:102-105 | `ts_control` has `WindowSize` elements |
| LegacyWindowedModel.ControlTimesStep | genkiml/source/windowed_model.h:105 | consecutive control times are one inference interval apart |
| LegacyWindowedModel.ControlTimesShape | genkiml/source/windowed_model.h:105 | for a positive interval the grid is strictly increasing, ends at 0 and starts `WindowSize - 1` intervals earlier |
| LegacyWindowedModel.CopyInto | genkiml/source/windowed_model.h:142-145 | `std::copy` writes the channel right after what is already in place and returns the position after it; the buffer before the write position and from the end of the copy on is unchanged |
| LegacyWindowedModel.InferenceInput | genkiml/source/windowed_model.h:136-147 | the buffer has `WindowSize * NumSignals` values, the copy ends at the buffer's end, and the buffer is the raw channels one after the other |
| LegacyWindowedModel.BufferIsRawWindow | genkiml/source/windowed_model.h:136-147 | on an example window the resampled channel differs from the buffer handed to `infer`, which is the raw window |
| LegacyWindowedModel.WindowedModel.constructor | genkiml/source/windowed_model.h:102-108 | empty window, `prev_inference_ts == 0`, `ts_control` from the interval, invariant established |
| LegacyWindowedModel.WindowedModel.GetNumSamples | genkiml/source/windowed_model.h:110-115 | needs every channel as long as the timestamps; returns that common length |
| LegacyWindowedModel.WindowedModel.PopFront | genkiml/source/windowed_model.h:119-125 | drops the front of every channel and of the timestamps, nothing else |
| LegacyWindowedModel.WindowedModel.PushBack | genkiml/source/windowed_model.h:127-130 | appends `sample[k]` to channel `k` and the timestamp to the timestamps, nothing else |
| LegacyWindowedModel.WindowedModel.Advance | genkiml/source/windowed_model.h:119-130 | the timestamps and every channel become the one-step slide of their old contents: front evicted only when full, new entry appended |
| LegacyWindowedModel.WindowedModel.Trigger | genkiml/source/windowed_model.h:132-157 | fires iff the window is full and `back - prev_inference_ts >= period`; then `prev_inference_ts` becomes the newest timestamp and the result is the raw window, channel-major |
| LegacyWindowedModel.WindowedModel.WouldFire | genkiml/source/windowed_model.h:132 | the same trigger test with the period as the interval; `PushSample` fires iff it holds |
| LegacyWindowedModel.WindowedModel.PushSample | genkiml/source/windowed_model.h:117-158 | evicts only when full, appends, keeps the window the latest `WindowSize` pushes; result present iff the trigger rule holds; the result is the raw window, channel-major |

## Left out

- `Model::infer`, the ONNX Runtime session and `load_model`: a foreign library and embedded-file I/O. `PushSample` returns the buffer `infer` would receive.
- `fmt::print` debug output (genkiml/source/windowed_model.h:107 and 149-152): output only.
- Floating point: `float` and `double` rounding, the casts inside `lerp`, and IEEE results such as infinity for a sample rate of 0. Values are exact `real`s, so the newer variant's constructor
  (`WindowedModel.WindowedModel.constructor`) requires a non-zero sample
  rate. The older variant takes the inference interval directly and needs
  no such condition.
- `memcpy` is modelled as copying the values of the nested array in memory order (`Concat`), not as copying bytes.
- The in-loop `assert(ts_idx <= ts.size() - 1)` of both `interp_1d`s is not a separate check. The loop invariant `idx + 1 < |ts|` is stronger and is proved.
- The GLFW examples, the Python model converter, the dashboard, and the ONNX-dependent tests: I/O and glue outside the core.
- Preprocessing.ResampledAtRawTimestamp: requires the raw timestamp to be more than `1e-5` after its predecessor, because the tolerant search can settle on the earlier pair otherwise (`Preprocessing.ToleranceCanMissRawSample`).
- Preprocessing.ResampledBounded: bounds the output only when the selected pair really contains the control time, because a time accepted by tolerance can be extrapolated (`Preprocessing.ToleranceCanExtrapolate`).
- Preprocessing.Interp1d: requires `ts` to have at least two elements. The source does not check this, but with fewer the first `ts[ts_idx + 1]` is out of range.
- LegacyWindowedModel.Interp1d: requires `ts` to have at least two elements (through `LegacyWindowedModel.ExactResamplePre`), for the same reason: the source does not check it, and with fewer the first `ts[ts_idx + 1]` is out of range.

## Findings

| source | as written | input that shows it | evidently intended | confidence | as-written member | corrected member |
|---|---|---|---|---|---|---|
| genkiml/source/preprocessing.h:32 | the tolerance clause of the upper-bound assert compares the first elements of `ts_control` and `ts` | `ts = [0, 1]`, `ts_control = [0, 2]`: the assert passes, and the search for 2 runs past the last pair of `ts` | the tolerance clause compares the last elements | high, not executed | Preprocessing.AsWrittenSpanAdmitsUnbracketed | Preprocessing.BracketsExist |
