/** `genkiml/source/windowed_model.h`: the older windowed model. Its resampler
    brackets control times exactly (no tolerance), its control grid is spaced
    by the inference interval, and the buffer it hands to `infer` is refilled
    from the raw window after the resampled values are copied in, so what
    reaches the model is the raw window in channel-major order.
    `Model::infer` is not modelled: `PushSample` returns the buffer. */
module LegacyWindowedModel {
  import opened Wrappers
  import opened Preprocessing
  import opened ControlGrid
  import opened SlidingWindow

  // ---------------------------------------------------------------------------
  // interp_1d with an exact bracket test

  /** The loop test of this `interp_1d`: `lo <= x <= hi`, no tolerance. */
  predicate Within(x: real, lo: real, hi: real) {
    x >= lo && x <= hi
  }

  /** The first pair `(ts[k], ts[k+1])`, searching from `k`, that contains `t`;
      a result `r` with `r + 1 >= |ts|` means the search ran off the end. */
  function FirstPairFrom(t: real, ts: seq<real>, k: nat): (r: nat)
    ensures k <= r
    decreases |ts| - k
  {
    if k + 1 >= |ts| then k
    else if Within(t, ts[k], ts[k + 1]) then k
    else FirstPairFrom(t, ts, k + 1)
  }

  function FirstPair(t: real, ts: seq<real>): nat {
    FirstPairFrom(t, ts, 0)
  }

  predicate HasPair(t: real, ts: seq<real>) {
    FirstPair(t, ts) + 1 < |ts|
  }

  /** Started at a pair whose low end is at most `t`, on a strictly increasing
      `ts` whose last element is at least `t`, the search finds a pair inside
      `ts` that contains `t`. */
  lemma {:induction false} FirstPairFromFound(t: real, ts: seq<real>, k: nat)
    requires IsGrowing(ts)
    requires k + 1 < |ts|
    requires ts[k] <= t <= Last(ts)
    ensures FirstPairFrom(t, ts, k) + 1 < |ts|
    ensures Within(t, ts[FirstPairFrom(t, ts, k)], ts[FirstPairFrom(t, ts, k) + 1])
    decreases |ts| - k
  {
    if !Within(t, ts[k], ts[k + 1]) {
      FirstPairFromFound(t, ts, k + 1);
    }
  }

  /** Pairs that end below `t` never contain it, so the search finds the same
      pair whichever passed pair it starts from. */
  lemma {:induction false} FirstPairSkipsPassed(t: real, ts: seq<real>, idx: nat)
    requires IsGrowing(ts)
    requires idx < |ts|
    requires forall j :: 0 < j <= idx ==> ts[j] < t
    ensures FirstPairFrom(t, ts, 0) == FirstPairFrom(t, ts, idx)
    decreases idx
  {
    if idx > 0 {
      FirstPairSkipsPassed(t, ts, idx - 1);
      assert !Within(t, ts[idx - 1], ts[idx]);
    }
  }

  /** The asserts of this `interp_1d`: both sequences strictly increasing, of
      equal length (at least two, as `ts[ts_idx + 1]` is read), and the grid
      inside the span of `ts` with no tolerance. */
  predicate ExactResamplePre(ts: seq<real>, ctrl: seq<real>) {
    |ts| >= 2 && |ctrl| == |ts|
    && IsGrowing(ts) && IsGrowing(ctrl)
    && ctrl[0] >= ts[0] && Last(ctrl) <= Last(ts)
  }

  predicate ExactInterp1dPre(samples: seq<real>, ts: seq<real>, ctrl: seq<real>) {
    |samples| == |ts| && ExactResamplePre(ts, ctrl)
  }

  /** Under the asserts every control time lies inside some pair of `ts`. */
  lemma PairsExist(ts: seq<real>, ctrl: seq<real>, i: nat)
    requires ExactResamplePre(ts, ctrl)
    requires i < |ctrl|
    ensures HasPair(ctrl[i], ts)
    ensures Within(ctrl[i], ts[FirstPair(ctrl[i], ts)], ts[FirstPair(ctrl[i], ts) + 1])
  {
    if i > 0 {
      GrowingPairwise(ctrl, 0, i);
    }
    if i < |ctrl| - 1 {
      GrowingPairwise(ctrl, i, |ctrl| - 1);
    }
    FirstPairFromFound(ctrl[i], ts, 0);
  }

  /** The interpolated value at `t`: `lerp` over the first pair containing `t`. */
  function ExactResampleAt(samples: seq<real>, ts: seq<real>, t: real): real
    requires |samples| == |ts| && IsGrowing(ts) && HasPair(t, ts)
  {
    var k := FirstPair(t, ts);
    Lerp(samples[k], samples[k + 1], ts[k], ts[k + 1], t)
  }

  function ExactResampled(samples: seq<real>, ts: seq<real>, ctrl: seq<real>): (r: seq<real>)
    requires ExactInterp1dPre(samples, ts, ctrl)
    ensures |r| == |ctrl|
  {
    assert forall i :: 0 <= i < |ctrl| ==> HasPair(ctrl[i], ts) by {
      forall i | 0 <= i < |ctrl| ensures HasPair(ctrl[i], ts) {
        PairsExist(ts, ctrl, i);
      }
    }
    seq(|ctrl|, i requires 0 <= i < |ctrl| => ExactResampleAt(samples, ts, ctrl[i]))
  }

  /** `interp_1d`: one cursor over `ts` for all control times, advanced until
      the pair it points at contains the control time. */
  method Interp1d(samples: seq<real>, ts: seq<real>, ctrl: seq<real>) returns (ret: seq<real>)
    requires ExactInterp1dPre(samples, ts, ctrl)
    ensures ret == ExactResampled(samples, ts, ctrl)
  {
    var idx := 0;
    var out := new real[|ctrl|];
    for i := 0 to |ctrl|
      invariant idx + 1 < |ts|
      invariant i < |ctrl| ==> ts[idx] <= ctrl[i]
      invariant i < |ctrl| ==> forall j :: 0 < j <= idx ==> ts[j] < ctrl[i]
      invariant forall m :: 0 <= m < i ==> HasPair(ctrl[m], ts) && out[m] == ExactResampleAt(samples, ts, ctrl[m])
    {
      var t := ctrl[i];
      if i < |ctrl| - 1 {
        GrowingPairwise(ctrl, i, |ctrl| - 1);
      }
      while !Within(t, ts[idx], ts[idx + 1])
        invariant idx + 1 < |ts|
        invariant ts[idx] <= t
        invariant forall j :: 0 < j <= idx ==> ts[j] < t
        decreases |ts| - idx
      {
        idx := idx + 1;
      }
      FirstPairSkipsPassed(t, ts, idx);
      assert FirstPair(t, ts) == idx;
      out[i] := Lerp(samples[idx], samples[idx + 1], ts[idx], ts[idx + 1], t);
    }
    ret := out[..];
  }

  /** A later time never selects an earlier pair. */
  lemma {:induction false} FirstPairMonotone(ts: seq<real>, t1: real, t2: real, k: nat)
    requires IsGrowing(ts) && t1 <= t2
    requires FirstPairFrom(t1, ts, k) + 1 < |ts|
    requires ts[k] <= t1
    ensures FirstPairFrom(t1, ts, k) <= FirstPairFrom(t2, ts, k)
    decreases |ts| - k
  {
    if k + 1 < |ts| && !Within(t1, ts[k], ts[k + 1]) {
      assert t1 > ts[k + 1];
      assert !Within(t2, ts[k], ts[k + 1]);
      FirstPairMonotone(ts, t1, t2, k + 1);
    }
  }

  /** Across the control grid, the pair selected for a later control time is
      never before the pair selected for an earlier one. */
  lemma ExactCursorNeverDecreases(samples: seq<real>, ts: seq<real>, ctrl: seq<real>, i: nat, j: nat)
    requires ExactInterp1dPre(samples, ts, ctrl) && i <= j < |ctrl|
    ensures FirstPair(ctrl[i], ts) <= FirstPair(ctrl[j], ts)
  {
    PairsExist(ts, ctrl, i);
    if i > 0 {
      GrowingPairwise(ctrl, 0, i);
    }
    if i < j {
      GrowingPairwise(ctrl, i, j);
    }
    FirstPairMonotone(ts, ctrl[i], ctrl[j], 0);
  }

  /** Every resampled value lies between the two raw samples of a pair of
      `ts` that contains its control time. */
  lemma ExactResampledBounded(samples: seq<real>, ts: seq<real>, ctrl: seq<real>, i: nat)
    requires ExactInterp1dPre(samples, ts, ctrl) && i < |ctrl|
    ensures exists k :: 0 <= k && k + 1 < |ts| && ts[k] <= ctrl[i] <= ts[k + 1]
              && Min(samples[k], samples[k + 1]) <= ExactResampled(samples, ts, ctrl)[i] <= Max(samples[k], samples[k + 1])
  {
    PairsExist(ts, ctrl, i);
    var k := FirstPair(ctrl[i], ts);
    LerpBounded(samples[k], samples[k + 1], ts[k], ts[k + 1], ctrl[i]);
  }

  /** A control time equal to a raw timestamp reproduces that raw sample. */
  lemma ExactResampledAtRawTimestamp(samples: seq<real>, ts: seq<real>, ctrl: seq<real>, i: nat, j: nat)
    requires ExactInterp1dPre(samples, ts, ctrl) && i < |ctrl| && j < |ts|
    requires ctrl[i] == ts[j]
    ensures ExactResampled(samples, ts, ctrl)[i] == samples[j]
  {
    PairsExist(ts, ctrl, i);
    var k := FirstPair(ctrl[i], ts);
    if j < k {
      GrowingPairwise(ts, j, k);
    } else if j > k + 1 {
      GrowingPairwise(ts, k + 1, j);
    }
    LerpAtEnds(samples[k], samples[k + 1], ts[k], ts[k + 1]);
  }

  // ---------------------------------------------------------------------------
  // interpolate

  /** The asserts of `interpolate`, and of `interp_1d` on the aligned
      timestamps when there is a channel to resample. */
  predicate ExactInterpolatePre(signals: seq<seq<real>>, ts: seq<real>, ctrl: seq<real>) {
    |ts| > 0 && |ts| == |ctrl|
    && (forall k :: 0 <= k < |signals| ==> |signals[k]| == |ts|)
    && (|signals| > 0 ==> ExactResamplePre(Align(ts), ctrl))
  }

  function ExactInterpolated(signals: seq<seq<real>>, ts: seq<real>, ctrl: seq<real>): (r: seq<seq<real>>)
    requires ExactInterpolatePre(signals, ts, ctrl)
    ensures |r| == |signals|
    ensures forall k :: 0 <= k < |signals| ==> |r[k]| == |ctrl|
  {
    seq(|signals|, k requires 0 <= k < |signals| => ExactResampled(signals[k], Align(ts), ctrl))
  }

  /** `interpolate`: aligns the timestamps to the newest one and resamples
      every channel onto the grid. */
  method Interpolate(signals: seq<seq<real>>, ts: seq<real>, ctrl: seq<real>) returns (ret: seq<seq<real>>)
    requires ExactInterpolatePre(signals, ts, ctrl)
    ensures |ret| == |signals|
    ensures forall k :: 0 <= k < |signals| ==> ret[k] == ExactResampled(signals[k], Align(ts), ctrl)
  {
    var aligned := Align(ts);
    var rows := new seq<real>[|signals|];
    for k := 0 to |signals|
      invariant forall m :: 0 <= m < k ==> rows[m] == ExactResampled(signals[m], aligned, ctrl)
    {
      rows[k] := Interp1d(signals[k], aligned, ctrl);
    }
    ret := rows[..];
  }

  // ---------------------------------------------------------------------------
  // The control grid

  /** `ts_control`: `WindowSize` points from `period * (1 - WindowSize)` to 0. */
  function ControlTimes(windowSize: nat, period: real): (r: seq<real>)
    requires windowSize > 1
    ensures |r| == windowSize
  {
    Linspace(period * ((1 - windowSize) as real), 0.0, windowSize)
  }

  /** Consecutive grid points are one inference interval apart. */
  lemma ControlTimesStep(windowSize: nat, period: real, i: nat)
    requires windowSize > 1 && i + 1 < windowSize
    ensures ControlTimes(windowSize, period)[i + 1] - ControlTimes(windowSize, period)[i] == period
  {
    StepOfGridToZero(period, windowSize, i);
  }

  /** For a positive interval the grid is strictly increasing and ends at 0,
      `WindowSize - 1` intervals after its start. */
  lemma ControlTimesShape(windowSize: nat, period: real)
    requires windowSize > 1 && period > 0.0
    ensures IsGrowing(ControlTimes(windowSize, period))
    ensures ControlTimes(windowSize, period)[windowSize - 1] == 0.0
    ensures ControlTimes(windowSize, period)[0] == -(period * ((windowSize - 1) as real))
  {
    var r := ControlTimes(windowSize, period);
    forall i | 0 < i < windowSize
      ensures r[i - 1] < r[i]
    {
      ControlTimesStep(windowSize, period, i - 1);
    }
    assert ((1 - windowSize) as real) == -((windowSize - 1) as real);
  }

  // ---------------------------------------------------------------------------
  // The inference buffer

  /** `std::copy` of `s` into `a` from position `it`: returns the position
      after the last element written; what lies before `it` and from that
      position on is kept. */
  method CopyInto(a: array<real>, it: nat, s: seq<real>) returns (end: nat)
    requires it + |s| <= a.Length
    modifies a
    ensures end == it + |s|
    ensures a[..end] == old(a[..it]) + s
    ensures a[end..] == old(a[end..])
  {
    for j := 0 to |s|
      invariant a[..it + j] == old(a[..it]) + s[..j]
      invariant a[it + |s|..] == old(a[it + |s|..])
    {
      a[it + j] := s[j];
      assert s[..j + 1] == s[..j] + [s[j]];
    }
    assert s[..|s|] == s;
    end := it + |s|;
  }

  /** The buffer `push_sample` hands to `infer`: the resampled rows are copied
      in, then `accumulate` copies every raw channel over it, one after the
      other, and the copy ends exactly at the end of the buffer. */
  method InferenceInput(signals: seq<seq<real>>, ts: seq<real>, ctrl: seq<real>) returns (buf: seq<real>)
    requires ExactInterpolatePre(signals, ts, ctrl)
    ensures |buf| == |ctrl| * |signals|
    ensures buf == Concat(signals)
  {
    var w := |ctrl|;
    var interp := Interpolate(signals, ts, ctrl);
    ConcatLength(interp, w);
    var flat := Concat(interp);
    var a := new real[w * |signals|];
    // memcpy of the resampled rows
    forall i | 0 <= i < a.Length {
      a[i] := flat[i];
    }
    var it := 0;
    for k := 0 to |signals|
      invariant it == k * w && it <= a.Length
      invariant a[..it] == Concat(signals[..k])
    {
      ghost var copied := a[..it];
      MulMono(k + 1, |signals|, w);
      assert (k + 1) * w == it + w;
      it := CopyInto(a, it, signals[k]);
      assert a[..it] == copied + signals[k];
      assert signals[..k + 1][..k] == signals[..k];
      assert Concat(signals[..k + 1]) == Concat(signals[..k]) + signals[k];
    }
    assert signals[..|signals|] == signals;
    assert it == a.Length;
    buf := a[..];
  }

  /** With values `[0, 2, 4, 10]` at timestamps `[0, 1, 2, 3]` and a grid of
      interval 0.5, the resampled channel is `[3, 4, 7, 10]`, yet the buffer
      handed to `infer` holds the raw window `[0, 2, 4, 10]`. */
  lemma BufferIsRawWindow()
    ensures ControlTimes(4, 0.5) == [-1.5, -1.0, -0.5, 0.0]
    ensures ExactInterpolatePre([[0.0, 2.0, 4.0, 10.0]], [0.0, 1.0, 2.0, 3.0], ControlTimes(4, 0.5))
    ensures ExactInterpolated([[0.0, 2.0, 4.0, 10.0]], [0.0, 1.0, 2.0, 3.0], ControlTimes(4, 0.5)) == [[3.0, 4.0, 7.0, 10.0]]
    ensures Concat([[0.0, 2.0, 4.0, 10.0]]) == [0.0, 2.0, 4.0, 10.0]
  {
    var ctrl := ControlTimes(4, 0.5);
    assert ctrl[1] == -1.0 && ctrl[2] == -0.5;
    assert ctrl == [-1.5, -1.0, -0.5, 0.0];
    var ts := [0.0, 1.0, 2.0, 3.0];
    var al: seq<real> := [-3.0, -2.0, -1.0, 0.0];
    assert Align(ts) == al;
    var s := [0.0, 2.0, 4.0, 10.0];
    assert FirstPairFrom(-1.5, al, 1) == 1;
    assert FirstPair(-1.5, al) == 1;
    assert FirstPairFrom(-1.0, al, 1) == 1;
    assert FirstPair(-1.0, al) == 1;
    assert FirstPairFrom(-0.5, al, 2) == 2;
    assert FirstPairFrom(-0.5, al, 1) == 2;
    assert FirstPair(-0.5, al) == 2;
    assert FirstPairFrom(0.0, al, 2) == 2;
    assert FirstPairFrom(0.0, al, 1) == 2;
    assert FirstPair(0.0, al) == 2;
    var r := ExactResampled(s, al, ctrl);
    assert r == [3.0, 4.0, 7.0, 10.0];
    assert Concat([s]) == Concat([]) + s;
  }

  // ---------------------------------------------------------------------------
  // The model

  class WindowedModel {
    const windowSize: nat
    const numSignals: nat
    /** `period`: the inference interval, also the grid spacing. */
    const period: real
    const tsControl: seq<real>
    var prevInferenceTs: real
    const signals: array<seq<real>>
    var timestamps: seq<real>

    ghost var pushedTimestamps: seq<real>
    ghost var pushedSamples: seq<seq<real>>

    /** The window holds the latest `WindowSize` pushes of every channel and of
        the timestamps, and the trigger state is the one those pushes lead to. */
    ghost predicate Valid()
      reads this, signals
    {
      windowSize > 1 && signals.Length == numSignals && |tsControl| == windowSize
      && HoldsLatest(timestamps, signals[..], prevInferenceTs, pushedTimestamps, pushedSamples, windowSize, period)
    }

    constructor (windowSize: nat, numSignals: nat, interval: real)
      requires windowSize > 1
      ensures Valid() && fresh(signals)
      ensures this.windowSize == windowSize && this.numSignals == numSignals
      ensures period == interval && tsControl == ControlTimes(windowSize, interval)
      ensures timestamps == [] && pushedTimestamps == [] && prevInferenceTs == 0.0
    {
      this.windowSize := windowSize;
      this.numSignals := numSignals;
      period := interval;
      tsControl := ControlTimes(windowSize, interval);
      prevInferenceTs := 0.0;
      signals := new seq<real>[numSignals](_ => []);
      timestamps := [];
      pushedTimestamps := [];
      pushedSamples := [];
    }

    /** `get_num_samples`: every channel is as long as the timestamps, and that
        common length is the result. */
    method GetNumSamples() returns (n: nat)
      requires forall k :: 0 <= k < signals.Length ==> |signals[k]| == |timestamps|
      ensures n == |timestamps|
      ensures forall k :: 0 <= k < signals.Length ==> |signals[k]| == n
    {
      n := |timestamps|;
    }

    method PopFront()
      requires |timestamps| > 0 && forall k :: 0 <= k < signals.Length ==> |signals[k]| > 0
      modifies this`timestamps, signals
      ensures timestamps == old(timestamps)[1..]
      ensures forall k :: 0 <= k < signals.Length ==> signals[k] == old(signals[k])[1..]
    {
      for k := 0 to signals.Length
        modifies signals
        invariant forall j :: 0 <= j < k ==> signals[j] == old(signals[j])[1..]
        invariant forall j :: k <= j < signals.Length ==> signals[j] == old(signals[j])
      {
        signals[k] := signals[k][1..];
      }
      timestamps := timestamps[1..];
    }

    method PushBack(sample: seq<real>, timestamp: real)
      requires |sample| == signals.Length
      modifies this`timestamps, signals
      ensures timestamps == old(timestamps) + [timestamp]
      ensures forall k :: 0 <= k < signals.Length ==> signals[k] == old(signals[k]) + [sample[k]]
    {
      for k := 0 to signals.Length
        modifies signals
        invariant forall j :: 0 <= j < k ==> signals[j] == old(signals[j]) + [sample[j]]
        invariant forall j :: k <= j < signals.Length ==> signals[j] == old(signals[j])
      {
        signals[k] := signals[k] + [sample[k]];
      }
      timestamps := timestamps + [timestamp];
    }

    /** The deque updates of `push_sample`: when the window is full, evict the
        front of every channel and of the timestamps, then append the new entry. */
    method Advance(sample: seq<real>, timestamp: real)
      requires 0 < windowSize && |sample| == signals.Length && |timestamps| <= windowSize
      requires forall k :: 0 <= k < signals.Length ==> |signals[k]| == |timestamps|
      modifies this`timestamps, signals
      ensures timestamps == Slide(old(timestamps), timestamp, windowSize)
      ensures signals[..] == SlideEach(old(signals[..]), sample, windowSize)
    {
      var n := GetNumSamples();
      if n == windowSize {
        PopFront();
      }
      PushBack(sample, timestamp);
      assert forall k :: 0 <= k < signals.Length ==> signals[k] == Slide(old(signals[k]), sample[k], windowSize);
    }

    /** The trigger of `push_sample`, after the new sample is in. */
    method Trigger() returns (result: Option<seq<real>>)
      requires signals.Length == numSignals && |tsControl| == windowSize && |timestamps| > 0
      requires forall k :: 0 <= k < signals.Length ==> |signals[k]| == |timestamps|
      requires |timestamps| == windowSize && Last(timestamps) - prevInferenceTs >= period && numSignals > 0
               ==> ExactResamplePre(Align(timestamps), tsControl)
      modifies this`prevInferenceTs
      ensures result.Some? <==> |timestamps| == windowSize && Last(timestamps) - old(prevInferenceTs) >= period
      ensures prevInferenceTs == if result.Some? then Last(timestamps) else old(prevInferenceTs)
      ensures result.Some? ==> result.value == Concat(signals[..])
    {
      var n := GetNumSamples();
      if n == windowSize && timestamps[|timestamps| - 1] - prevInferenceTs >= period {
        prevInferenceTs := timestamps[|timestamps| - 1];
        var buf := InferenceInput(signals[..], timestamps, tsControl);
        result := Some(buf);
      } else {
        result := None;
      }
    }

    ghost predicate WouldFire(timestamp: real)
      reads this
    {
      FiresOn(TriggerState(|timestamps|, prevInferenceTs), timestamp, windowSize, period)
    }

    /** `push_sample`: evict when full, append, and fire when the window is
        full and `period` has passed since the last inference. On firing, the
        buffer handed to `infer` is the raw window, channel after channel. The
        resampler's asserts must hold then. */
    method PushSample(sample: seq<real>, timestamp: real) returns (result: Option<seq<real>>)
      requires Valid() && |sample| == numSignals
      requires WouldFire(timestamp) && numSignals > 0
               ==> ExactResamplePre(Align(Slide(timestamps, timestamp, windowSize)), tsControl)
      modifies this, signals
      ensures Valid()
      ensures pushedTimestamps == old(pushedTimestamps) + [timestamp]
      ensures pushedSamples == old(pushedSamples) + [sample]
      ensures timestamps == Slide(old(timestamps), timestamp, windowSize)
      ensures signals[..] == SlideEach(old(signals[..]), sample, windowSize)
      ensures result.Some? <==> old(WouldFire(timestamp))
      ensures prevInferenceTs == if result.Some? then timestamp else old(prevInferenceTs)
      ensures result.Some? ==> result.value == Concat(signals[..])
    {
      PushKeepsLatest(timestamps, signals[..], prevInferenceTs, pushedTimestamps, pushedSamples,
                      windowSize, period, sample, timestamp);
      Advance(sample, timestamp);
      pushedTimestamps := pushedTimestamps + [timestamp];
      pushedSamples := pushedSamples + [sample];
      result := Trigger();
    }
  }
}
