/** `genkiml/include/genkiml/windowed_model.h`: the windowed model whose control
    grid is derived from the sample rate and whose input buffer is the
    transposed (time-major) resampled window. `Model::infer` is not modelled:
    `PushSample` returns the buffer it would be handed. */
module WindowedModel {
  import opened Wrappers
  import opened Preprocessing
  import opened ControlGrid
  import opened SlidingWindow

  /** `ts_control`: `WindowSize` points from `(1 - WindowSize) / sample_rate_hz` to 0. */
  function ControlTimes(windowSize: nat, sampleRateHz: real): (r: seq<real>)
    requires windowSize > 1 && sampleRateHz != 0.0
    ensures |r| == windowSize
  {
    Linspace(1.0 / sampleRateHz * ((1 - windowSize) as real), 0.0, windowSize)
  }

  /** The grid starts `WindowSize - 1` sample periods before 0 and ends at 0. */
  lemma ControlTimesEnds(windowSize: nat, sampleRateHz: real)
    requires windowSize > 1 && sampleRateHz != 0.0
    ensures ControlTimes(windowSize, sampleRateHz)[0] == -((windowSize - 1) as real) / sampleRateHz
    ensures ControlTimes(windowSize, sampleRateHz)[windowSize - 1] == 0.0
  {
    var n := (windowSize - 1) as real;
    assert 1.0 / sampleRateHz * ((1 - windowSize) as real) == -n / sampleRateHz by {
      assert ((1 - windowSize) as real) == -n;
    }
  }

  /** Consecutive grid points are one sample period apart. */
  lemma ControlTimesStep(windowSize: nat, sampleRateHz: real, i: nat)
    requires windowSize > 1 && sampleRateHz != 0.0 && i + 1 < windowSize
    ensures ControlTimes(windowSize, sampleRateHz)[i + 1] - ControlTimes(windowSize, sampleRateHz)[i] == 1.0 / sampleRateHz
  {
    StepOfGridToZero(1.0 / sampleRateHz, windowSize, i);
  }

  /** For a positive rate the grid is strictly increasing, as `interp_1d` demands. */
  lemma ControlTimesGrowing(windowSize: nat, sampleRateHz: real)
    requires windowSize > 1 && sampleRateHz > 0.0
    ensures IsGrowing(ControlTimes(windowSize, sampleRateHz))
  {
    var r := ControlTimes(windowSize, sampleRateHz);
    assert 1.0 / sampleRateHz > 0.0;
    forall i | 0 < i < windowSize
      ensures r[i - 1] < r[i]
    {
      ControlTimesStep(windowSize, sampleRateHz, i - 1);
    }
  }

  /** The input `push_sample` hands to `infer`: the window resampled per
      channel, transposed, and copied in memory order into a buffer of
      `WindowSize * NumSignals` values. */
  method InferenceInput(signals: seq<seq<real>>, ts: seq<real>, ctrl: seq<real>) returns (buf: seq<real>)
    requires InterpolatePre(signals, ts, ctrl)
    ensures |buf| == |ctrl| * |signals|
    ensures buf == Concat(Transposed(Interpolated(signals, ts, ctrl), |ctrl|))
  {
    var windowSize := |ctrl|;
    var rows := Interpolate(signals, ts, ctrl);
    assert rows == Interpolated(signals, ts, ctrl);
    var interp := Transpose(rows, windowSize);
    TransposeUnique(rows, windowSize, interp, Transposed(rows, windowSize));
    // memcpy of the contiguous two-dimensional array into `buf`
    var flat := Concat(interp);
    ConcatLength(interp, |signals|);
    var a := new real[windowSize * |signals|];
    forall i | 0 <= i < a.Length {
      a[i] := flat[i];
    }
    assert a[..] == flat;
    buf := a[..];
  }

  /** At 2 Hz with a window of four, values `[0, 2, 4, 10]` at timestamps
      `[0, 1, 2, 3]` are resampled at `[-1.5, -1, -0.5, 0]` seconds before the
      newest sample to `[3, 4, 7, 10]`. */
  lemma ResampledExample()
    ensures ControlTimes(4, 2.0) == [-1.5, -1.0, -0.5, 0.0]
    ensures InterpolatePre([[0.0, 2.0, 4.0, 10.0]], [0.0, 1.0, 2.0, 3.0], ControlTimes(4, 2.0))
    ensures Interpolated([[0.0, 2.0, 4.0, 10.0]], [0.0, 1.0, 2.0, 3.0], ControlTimes(4, 2.0)) == [[3.0, 4.0, 7.0, 10.0]]
  {
    var ctrl := ControlTimes(4, 2.0);
    assert ctrl[1] == -1.0 && ctrl[2] == -0.5;
    assert ctrl == [-1.5, -1.0, -0.5, 0.0];
    var ts := [0.0, 1.0, 2.0, 3.0];
    var al: seq<real> := [-3.0, -2.0, -1.0, 0.0];
    assert Align(ts) == al;
    assert FirstBracketFrom(-1.5, al, 1) == 1;
    assert FirstBracket(-1.5, al) == 1;
    assert FirstBracketFrom(-1.0, al, 1) == 1;
    assert FirstBracket(-1.0, al) == 1;
    assert FirstBracketFrom(-0.5, al, 2) == 2;
    assert FirstBracketFrom(-0.5, al, 1) == 2;
    assert FirstBracket(-0.5, al) == 2;
    assert FirstBracketFrom(0.0, al, 2) == 2;
    assert FirstBracketFrom(0.0, al, 1) == 2;
    assert FirstBracket(0.0, al) == 2;
    assert Resampled([0.0, 2.0, 4.0, 10.0], al, ctrl) == [3.0, 4.0, 7.0, 10.0];
  }

  class WindowedModel {
    const windowSize: nat
    const numSignals: nat
    const inferenceInterval: real
    const tsControl: seq<real>
    var prevInferenceTs: real
    /** One deque per channel (`std::array<std::deque<SampleType>, NumSignals>`). */
    const signals: array<seq<real>>
    var timestamps: seq<real>

    /** Every timestamp and every sample pushed so far, in push order. */
    ghost var pushedTimestamps: seq<real>
    ghost var pushedSamples: seq<seq<real>>

    /** The window holds the latest `WindowSize` pushes of every channel and of
        the timestamps, and the trigger state is the one those pushes lead to. */
    ghost predicate Valid()
      reads this, signals
    {
      windowSize > 1 && signals.Length == numSignals && |tsControl| == windowSize
      && HoldsLatest(timestamps, signals[..], prevInferenceTs, pushedTimestamps, pushedSamples, windowSize, inferenceInterval)
    }

    constructor (windowSize: nat, numSignals: nat, interval: real, sampleRateHz: real)
      requires windowSize > 1 && sampleRateHz != 0.0
      ensures Valid() && fresh(signals)
      ensures this.windowSize == windowSize && this.numSignals == numSignals
      ensures inferenceInterval == interval && tsControl == ControlTimes(windowSize, sampleRateHz)
      ensures timestamps == [] && pushedTimestamps == [] && prevInferenceTs == 0.0
    {
      this.windowSize := windowSize;
      this.numSignals := numSignals;
      inferenceInterval := interval;
      tsControl := ControlTimes(windowSize, sampleRateHz);
      prevInferenceTs := 0.0;
      signals := new seq<real>[numSignals](_ => []);
      timestamps := [];
      pushedTimestamps := [];
      pushedSamples := [];
    }

    /** `get_num_samples`: every channel is as long as the timestamps, and that
        common length is the result. */
    method GetNumSamples() returns (n: nat)
      requires forall k :: 0 <= k < signals.Length ==> |signals[k]| == |timestamps|
      ensures n == |timestamps|
      ensures forall k :: 0 <= k < signals.Length ==> |signals[k]| == n
    {
      n := |timestamps|;
    }

    /** `pop_front` on every channel and on the timestamps. */
    method PopFront()
      requires |timestamps| > 0 && forall k :: 0 <= k < signals.Length ==> |signals[k]| > 0
      modifies this`timestamps, signals
      ensures timestamps == old(timestamps)[1..]
      ensures forall k :: 0 <= k < signals.Length ==> signals[k] == old(signals[k])[1..]
    {
      for k := 0 to signals.Length
        modifies signals
        invariant forall j :: 0 <= j < k ==> signals[j] == old(signals[j])[1..]
        invariant forall j :: k <= j < signals.Length ==> signals[j] == old(signals[j])
      {
        signals[k] := signals[k][1..];
      }
      timestamps := timestamps[1..];
    }

    /** `push_back` of each channel's new value and of the timestamp. */
    method PushBack(sample: seq<real>, timestamp: real)
      requires |sample| == signals.Length
      modifies this`timestamps, signals
      ensures timestamps == old(timestamps) + [timestamp]
      ensures forall k :: 0 <= k < signals.Length ==> signals[k] == old(signals[k]) + [sample[k]]
    {
      for k := 0 to signals.Length
        modifies signals
        invariant forall j :: 0 <= j < k ==> signals[j] == old(signals[j]) + [sample[j]]
        invariant forall j :: k <= j < signals.Length ==> signals[j] == old(signals[j])
      {
        signals[k] := signals[k] + [sample[k]];
      }
      timestamps := timestamps + [timestamp];
    }

    /** The deque updates of `push_sample`: when the window is full, evict the
        front of every channel and of the timestamps, then append the new entry. */
    method Advance(sample: seq<real>, timestamp: real)
      requires 0 < windowSize && |sample| == signals.Length && |timestamps| <= windowSize
      requires forall k :: 0 <= k < signals.Length ==> |signals[k]| == |timestamps|
      modifies this`timestamps, signals
      ensures timestamps == Slide(old(timestamps), timestamp, windowSize)
      ensures signals[..] == SlideEach(old(signals[..]), sample, windowSize)
    {
      var n := GetNumSamples();
      if n == windowSize {
        PopFront();
      }
      PushBack(sample, timestamp);
      assert forall k :: 0 <= k < signals.Length ==> signals[k] == Slide(old(signals[k]), sample[k], windowSize);
    }

    /** The trigger of `push_sample`, after the new sample is in: when the
        window is full and `interval` has passed since the last inference,
        record the newest timestamp and build the buffer for `infer`. */
    method Trigger() returns (result: Option<seq<real>>)
      requires signals.Length == numSignals && |tsControl| == windowSize && |timestamps| > 0
      requires forall k :: 0 <= k < signals.Length ==> |signals[k]| == |timestamps|
      requires |timestamps| == windowSize && Last(timestamps) - prevInferenceTs >= inferenceInterval && numSignals > 0
               ==> ResamplePre(Align(timestamps), tsControl)
      modifies this`prevInferenceTs
      ensures result.Some? <==> |timestamps| == windowSize && Last(timestamps) - old(prevInferenceTs) >= inferenceInterval
      ensures prevInferenceTs == if result.Some? then Last(timestamps) else old(prevInferenceTs)
      ensures result.Some? ==>
                InterpolatePre(signals[..], timestamps, tsControl)
                && result.value == Concat(Transposed(Interpolated(signals[..], timestamps, tsControl), windowSize))
    {
      var n := GetNumSamples();
      if n == windowSize && timestamps[|timestamps| - 1] - prevInferenceTs >= inferenceInterval {
        prevInferenceTs := timestamps[|timestamps| - 1];
        var buf := InferenceInput(signals[..], timestamps, tsControl);
        result := Some(buf);
      } else {
        result := None;
      }
    }

    /** The trigger test `push_sample` makes for a push at `timestamp`. */
    ghost predicate WouldFire(timestamp: real)
      reads this
    {
      FiresOn(TriggerState(|timestamps|, prevInferenceTs), timestamp, windowSize, inferenceInterval)
    }

    /** `push_sample`: evict the oldest entry of every channel and of the
        timestamps when the window is full, append the new sample, and fire when
        the window is full and `interval` has passed since the last inference.
        On firing, the buffer handed to `infer` is the resampled window,
        transposed to time-major order. The resampler's asserts must hold then. */
    method PushSample(sample: seq<real>, timestamp: real) returns (result: Option<seq<real>>)
      requires Valid() && |sample| == numSignals
      requires WouldFire(timestamp) && numSignals > 0
               ==> ResamplePre(Align(Slide(timestamps, timestamp, windowSize)), tsControl)
      modifies this, signals
      ensures Valid()
      ensures pushedTimestamps == old(pushedTimestamps) + [timestamp]
      ensures pushedSamples == old(pushedSamples) + [sample]
      ensures timestamps == Slide(old(timestamps), timestamp, windowSize)
      ensures signals[..] == SlideEach(old(signals[..]), sample, windowSize)
      ensures result.Some? <==> old(WouldFire(timestamp))
      ensures prevInferenceTs == if result.Some? then timestamp else old(prevInferenceTs)
      ensures result.Some? ==>
                InterpolatePre(signals[..], timestamps, tsControl)
                && result.value == Concat(Transposed(Interpolated(signals[..], timestamps, tsControl), windowSize))
    {
      PushKeepsLatest(timestamps, signals[..], prevInferenceTs, pushedTimestamps, pushedSamples,
                      windowSize, inferenceInterval, sample, timestamp);
      Advance(sample, timestamp);
      pushedTimestamps := pushedTimestamps + [timestamp];
      pushedSamples := pushedSamples + [sample];
      result := Trigger();
    }
  }
}
